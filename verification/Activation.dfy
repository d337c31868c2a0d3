/**
  Activating a model at run time: each activation snapshots the shared service under a read
  lock, builds a new service, and overwrites the shared one under a write lock.
 */
module Activation {
  import opened Wrappers
  import opened Text

  datatype BackendKind = Candle | OpenAIProxy | SemanticRouter

  datatype ModelKind = Llm | Vlm | Ocr | Asr | Detector | Embedder | Reranker

  /** `other` stands for the settings no activation touches. */
  datatype Config = Config(
    backend: BackendKind,
    chatModel: string,
    embeddingModel: string,
    candleChatModel: string,
    candleEmbeddingModel: string,
    other: string)

  datatype Request = Request(
    modelId: string,
    kind: ModelKind,
    localPath: Option<string>,
    runtimeProfiles: seq<string>)

  predicate WantsCandle(r: Request) {
    && r.localPath.Some? && Trim(r.localPath.value) != ""
    && exists i :: 0 <= i < |r.runtimeProfiles|
                   && (r.runtimeProfiles[i] == "harbor-candle" || r.runtimeProfiles[i] == "harbor-model-api-candle")
  }

  /** What the Candle runtime loads for a request. */
  function CandleId(r: Request): string {
    if r.localPath.Some? then r.localPath.value else r.modelId
  }

  /** An activation switches to Candle unless the backend was chosen explicitly. */
  predicate Switches(explicitBackend: bool, r: Request) {
    WantsCandle(r) && !explicitBackend
  }

  /** Only chat models and embedders can be activated. */
  function Apply(explicitBackend: bool, c: Config, r: Request): Result<Config, ModelKind> {
    var c' := if Switches(explicitBackend, r) then c.(backend := Candle) else c;
    match r.kind
    case Llm =>
      var named := c'.(chatModel := r.modelId);
      Ok(if named.backend.Candle? then named.(candleChatModel := CandleId(r)) else named)
    case Embedder =>
      var named := c'.(embeddingModel := r.modelId);
      Ok(if named.backend.Candle? then named.(candleEmbeddingModel := CandleId(r)) else named)
    case _ => Err(r.kind)
  }

  function RuntimeModelId(c: Config, kind: ModelKind): Option<string> {
    match kind
    case Llm => Some(if c.backend.Candle? then c.candleChatModel else c.chatModel)
    case Embedder =>
      (match c.backend
       case Candle => Some(c.candleEmbeddingModel)
       case OpenAIProxy => Some(c.embeddingModel)
       case SemanticRouter => None)
    case _ => None
  }

  /** The id an activation reports. */
  function ReportedId(c: Config, r: Request): string {
    var id := RuntimeModelId(c, r.kind);
    if id.Some? then id.value else r.modelId
  }

  /** Exactly which requests switch to Candle. */
  lemma SwitchesIff(explicitBackend: bool, r: Request)
    ensures Switches(explicitBackend, r) <==>
      && !explicitBackend
      && r.localPath.Some? && (exists i :: 0 <= i < |r.localPath.value| && !IsWhite(r.localPath.value[i]))
      && ("harbor-candle" in r.runtimeProfiles || "harbor-model-api-candle" in r.runtimeProfiles)
  {
    if r.localPath.Some? {
      TrimIsEmptyIff(r.localPath.value);
    }
  }

  /** What one activation changes, field by field, and what it leaves alone. */
  lemma ApplyExact(explicitBackend: bool, c: Config, r: Request)
    ensures r.kind.Llm? || r.kind.Embedder? <==> Apply(explicitBackend, c, r).Ok?
    ensures Apply(explicitBackend, c, r).Ok? ==>
      var n := Apply(explicitBackend, c, r).value;
      var loaded := match r.localPath case Some(path) => path case None => r.modelId;
      && n.other == c.other
      && n.backend == (if Switches(explicitBackend, r) then Candle else c.backend)
      && n.chatModel == (if r.kind.Llm? then r.modelId else c.chatModel)
      && n.embeddingModel == (if r.kind.Embedder? then r.modelId else c.embeddingModel)
      && n.candleChatModel == (if r.kind.Llm? && n.backend.Candle? then loaded else c.candleChatModel)
      && n.candleEmbeddingModel == (if r.kind.Embedder? && n.backend.Candle? then loaded else c.candleEmbeddingModel)
  {
  }

  lemma AppliedIdIsServed(explicitBackend: bool, c: Config, r: Request)
    requires Apply(explicitBackend, c, r).Ok?
    ensures var next := Apply(explicitBackend, c, r).value;
      ReportedId(next, r) == if next.backend.Candle? then CandleId(r) else r.modelId
  {
  }

  /** Only these kinds are published. */
  predicate Publishes(r: Request) {
    r.kind.Llm? || r.kind.Embedder?
  }

  predicate InRange(requests: seq<Request>, tasks: seq<nat>) {
    forall i :: 0 <= i < |tasks| ==> tasks[i] < |requests|
  }

  /** The fold of `Apply` over the requests of some tasks; `None` when one cannot be applied. */
  function Fold(explicitBackend: bool, requests: seq<Request>, c: Config, tasks: seq<nat>): Option<Config>
    requires InRange(requests, tasks)
  {
    if tasks == [] then Some(c)
    else
      var before := Fold(explicitBackend, requests, c, tasks[..|tasks| - 1]);
      if before.None? then None
      else
        var next := Apply(explicitBackend, before.value, requests[tasks[|tasks| - 1]]);
        if next.Ok? then Some(next.value) else None
  }

  // ----- interleaved activations -----

  datatype Service = Service(config: Config, authVerifier: string)

  datatype Phase = Waiting | Snapshot(service: Service) | Finished(ok: bool)

  datatype State = State(service: Service, phases: seq<Phase>)

  datatype Event = Read(task: nat) | Write(task: nat)

  function Next(explicitBackend: bool, requests: seq<Request>, s: State, e: Event): Option<State>
    requires |requests| == |s.phases|
  {
    if e.task >= |s.phases| then None
    else
      match (s.phases[e.task], e)
      case (Waiting, Read(t)) => Some(s.(phases := s.phases[t := Snapshot(s.service)]))
      case (Snapshot(service), Write(t)) =>
        (match Apply(explicitBackend, service.config, requests[t])
         case Err(_) => Some(s.(phases := s.phases[t := Finished(false)]))
         case Ok(config) => Some(State(Service(config, service.authVerifier), s.phases[t := Finished(true)])))
      case _ => None
  }

  ghost predicate IsRun(explicitBackend: bool, requests: seq<Request>, states: seq<State>, events: seq<Event>) {
    && |states| == |events| + 1
    && (forall i :: 0 <= i < |states| ==> |states[i].phases| == |requests|)
    && (forall t :: 0 <= t < |requests| ==> states[0].phases[t].Waiting?)
    && forall i {:trigger Next(explicitBackend, requests, states[i], events[i])} :: 0 <= i < |events| ==>
         Next(explicitBackend, requests, states[i], events[i]) == Some(states[i + 1])
  }

  // ----- what a run publishes, read off its events -----

  /** The event publishes a configuration. */
  predicate IsPublication(requests: seq<Request>, e: Event) {
    e.Write? && e.task < |requests| && Publishes(requests[e.task])
  }

  /** The tasks that published, in the order in which they did. */
  function Commits(requests: seq<Request>, events: seq<Event>): (r: seq<nat>)
    ensures InRange(requests, r)
  {
    if events == [] then []
    else
      var e := events[|events| - 1];
      Commits(requests, events[..|events| - 1]) + if IsPublication(requests, e) then [e.task] else []
  }

  /** Where a task last took its snapshot, 0 if it did not. */
  function ReadAt(events: seq<Event>, t: nat): (i: nat)
    ensures events != [] ==> i < |events|
  {
    if events == [] then 0
    else if events[|events| - 1] == Read(t) then |events| - 1
    else ReadAt(events[..|events| - 1], t)
  }

  /** The tasks the published configuration is built on: what the last publisher saw when it
      took its snapshot, and the publisher itself. */
  function Chain(requests: seq<Request>, events: seq<Event>): (r: seq<nat>)
    ensures InRange(requests, r)
    decreases |events|
  {
    if events == [] then []
    else
      var last := |events| - 1;
      if IsPublication(requests, events[last]) then
        Chain(requests, events[..ReadAt(events, events[last].task)]) + [events[last].task]
      else Chain(requests, events[..last])
  }

  /** Task `t` publishes at `k` although another publication, at `j`, came after its snapshot. */
  ghost predicate OverlapAt(requests: seq<Request>, events: seq<Event>, i: int, j: int, k: int) {
    && 0 <= i < j < k < |events|
    && IsPublication(requests, events[k]) && events[i] == Read(events[k].task)
    && IsPublication(requests, events[j])
  }

  ghost predicate Overlaps(requests: seq<Request>, events: seq<Event>) {
    exists i, j, k :: OverlapAt(requests, events, i, j, k)
  }

  // ----- every run -----

  /** A waiting task has done nothing yet, and a snapshot is of the state before its read. */
  ghost predicate TaskOk(requests: seq<Request>, states: seq<State>, events: seq<Event>, n: nat, t: nat)
    requires n < |states| && |states| == |events| + 1 && t < |states[n].phases|
  {
    match states[n].phases[t]
    case Waiting => Read(t) !in events[..n] && Write(t) !in events[..n]
    case Snapshot(service) =>
      var i := ReadAt(events[..n], t);
      && i < n && events[i] == Read(t) && service == states[i].service
      && (forall j :: 0 <= j < n && events[j] == Read(t) ==> j == i) && Write(t) !in events[..n]
    case Finished(ok) =>
      Write(t) in events[..n] && t < |requests| && ok == Publishes(requests[t])
  }

  lemma StepKeepsTask(explicitBackend: bool, requests: seq<Request>, states: seq<State>, events: seq<Event>, n: nat, t: nat)
    requires IsRun(explicitBackend, requests, states, events) && n < |events| && t < |requests|
    requires TaskOk(requests, states, events, n, t)
    ensures TaskOk(requests, states, events, n + 1, t)
  {
    assert Next(explicitBackend, requests, states[n], events[n]) == Some(states[n + 1]);
    assert events[..n + 1] == events[..n] + [events[n]];
    assert events[..n + 1][..n] == events[..n];
  }

  lemma {:induction false} TasksOk(explicitBackend: bool, requests: seq<Request>, states: seq<State>, events: seq<Event>, n: nat, t: nat)
    requires IsRun(explicitBackend, requests, states, events) && n < |states| && t < |requests|
    ensures TaskOk(requests, states, events, n, t)
  {
    if n > 0 {
      TasksOk(explicitBackend, requests, states, events, n - 1, t);
      StepKeepsTask(explicitBackend, requests, states, events, n - 1, t);
    }
  }

  /** What one step does to the chain. */
  lemma ChainStep(explicitBackend: bool, requests: seq<Request>, states: seq<State>, events: seq<Event>, n: nat)
    returns (i: nat)
    requires IsRun(explicitBackend, requests, states, events) && n < |events|
    ensures i <= n
    ensures IsPublication(requests, events[n]) ==>
      && i < n && events[i] == Read(events[n].task)
      && (forall j :: 0 <= j < n && events[j] == Read(events[n].task) ==> j == i)
      && Chain(requests, events[..n + 1]) == Chain(requests, events[..i]) + [events[n].task]
      && var next := Apply(explicitBackend, states[i].service.config, requests[events[n].task]);
         next.Ok? && states[n + 1].service == Service(next.value, states[i].service.authVerifier)
    ensures !IsPublication(requests, events[n]) ==>
      i == n && Chain(requests, events[..n + 1]) == Chain(requests, events[..n]) && states[n + 1].service == states[n].service
  {
    var now := events[..n + 1];
    assert now[..n] == events[..n];
    i := n;
    assert Next(explicitBackend, requests, states[n], events[n]) == Some(states[n + 1]);
    if IsPublication(requests, events[n]) {
      TasksOk(explicitBackend, requests, states, events, n, events[n].task);
      i := ReadAt(events[..n], events[n].task);
      assert ReadAt(now, events[n].task) == i;
      assert now[..i] == events[..i];
    }
  }

  lemma FoldStep(explicitBackend: bool, requests: seq<Request>, c: Config, tasks: seq<nat>, t: nat)
    requires InRange(requests, tasks) && t < |requests|
    ensures Fold(explicitBackend, requests, c, tasks + [t]) ==
      if Fold(explicitBackend, requests, c, tasks).None? then None
      else
        var next := Apply(explicitBackend, Fold(explicitBackend, requests, c, tasks).value, requests[t]);
        if next.Ok? then Some(next.value) else None
  {
    assert (tasks + [t])[..|tasks|] == tasks;
  }

  /** In every interleaving the verifier never changes, and the published configuration is the
      fold of `Apply` over the chain of activations it was built on. */
  lemma {:induction false} EveryRunIsSound(explicitBackend: bool, requests: seq<Request>, states: seq<State>,
                                           events: seq<Event>, n: nat)
    requires IsRun(explicitBackend, requests, states, events) && n < |states|
    ensures states[n].service.authVerifier == states[0].service.authVerifier
    ensures Fold(explicitBackend, requests, states[0].service.config, Chain(requests, events[..n]))
            == Some(states[n].service.config)
  {
    if n > 0 {
      var i := ChainStep(explicitBackend, requests, states, events, n - 1);
      EveryRunIsSound(explicitBackend, requests, states, events, i);
      if IsPublication(requests, events[n - 1]) {
        FoldStep(explicitBackend, requests, states[0].service.config, Chain(requests, events[..i]), events[n - 1].task);
      }
    }
  }

  /** Whatever happens in between, an activation that publishes reports the model the service then
      serves: the local files under Candle, the requested name otherwise. */
  lemma ReportedIdIsServed(explicitBackend: bool, requests: seq<Request>, states: seq<State>, events: seq<Event>, n: nat)
    requires IsRun(explicitBackend, requests, states, events)
    requires n < |events| && IsPublication(requests, events[n])
    ensures var c, r := states[n + 1].service.config, requests[events[n].task];
      ReportedId(c, r) == if c.backend.Candle? && r.localPath.Some? then r.localPath.value else r.modelId
  {
    var i := ChainStep(explicitBackend, requests, states, events, n);
    AppliedIdIsServed(explicitBackend, states[i].service.config, requests[events[n].task]);
  }

  // ----- publications and failures -----

  lemma {:induction false} CommitsExact(requests: seq<Request>, events: seq<Event>, t: nat)
    ensures t in Commits(requests, events) <==> Write(t) in events && t < |requests| && Publishes(requests[t])
  {
    if events != [] {
      CommitsExact(requests, events[..|events| - 1], t);
      assert events == events[..|events| - 1] + [events[|events| - 1]];
    }
  }

  lemma CommitsGrow(requests: seq<Request>, events: seq<Event>, e: Event)
    ensures Commits(requests, events + [e]) ==
      Commits(requests, events) + if IsPublication(requests, e) then [e.task] else []
  {
    assert (events + [e])[..|events|] == events;
  }

  predicate Distinct(s: seq<nat>) {
    forall i, j :: 0 <= i < j < |s| ==> s[i] != s[j]
  }

  /** In every state, the tasks that published are exactly those that reported success, each of
      them once; a failed activation never published and stands for an unsupported kind. */
  lemma {:induction false} CommitsAreSuccesses(explicitBackend: bool, requests: seq<Request>, states: seq<State>,
                                               events: seq<Event>, n: nat)
    requires IsRun(explicitBackend, requests, states, events) && n < |states|
    ensures Distinct(Commits(requests, events[..n]))
    ensures forall t :: 0 <= t < |requests| ==>
      && (t in Commits(requests, events[..n]) <==> states[n].phases[t] == Finished(true))
      && (states[n].phases[t] == Finished(false) <==> Write(t) in events[..n] && !Publishes(requests[t]))
  {
    forall t | 0 <= t < |requests|
      ensures t in Commits(requests, events[..n]) <==> states[n].phases[t] == Finished(true)
      ensures states[n].phases[t] == Finished(false) <==> Write(t) in events[..n] && !Publishes(requests[t])
    {
      TasksOk(explicitBackend, requests, states, events, n, t);
      CommitsExact(requests, events[..n], t);
    }
    if n > 0 {
      CommitsAreSuccesses(explicitBackend, requests, states, events, n - 1);
      assert events[..n][..n - 1] == events[..n - 1];
      assert Next(explicitBackend, requests, states[n - 1], events[n - 1]) == Some(states[n]);
    }
  }

  /** A step that does not publish leaves the shared service alone. */
  lemma FailurePublishesNothing(explicitBackend: bool, requests: seq<Request>, s: State, e: Event, t: State)
    requires |requests| == |s.phases| && Next(explicitBackend, requests, s, e) == Some(t)
    ensures !IsPublication(requests, e) ==> t.service == s.service
  {
  }

  // ----- overlapping activations -----

  /** Publications only add commits. */
  lemma {:induction false} CommitsBetween(requests: seq<Request>, events: seq<Event>, i: nat, n: nat)
    requires i <= n <= |events|
    ensures |Commits(requests, events[..i])| <= |Commits(requests, events[..n])|
    ensures if exists j :: i <= j < n && IsPublication(requests, events[j])
            then |Commits(requests, events[..i])| < |Commits(requests, events[..n])|
            else Commits(requests, events[..i]) == Commits(requests, events[..n])
  {
    if i < n {
      CommitsBetween(requests, events, i, n - 1);
      assert events[..n][..n - 1] == events[..n - 1];
    }
  }

  lemma {:induction false} ChainIsShort(explicitBackend: bool, requests: seq<Request>, states: seq<State>,
                                        events: seq<Event>, n: nat)
    requires IsRun(explicitBackend, requests, states, events) && n < |states|
    ensures |Chain(requests, events[..n])| <= |Commits(requests, events[..n])|
  {
    if n > 0 {
      var i := ChainStep(explicitBackend, requests, states, events, n - 1);
      ChainIsShort(explicitBackend, requests, states, events, i);
      CommitsBetween(requests, events, i, n - 1);
      assert events[..n][..n - 1] == events[..n - 1];
    }
  }

  /** An overlap lies before its publication and stays one. */
  lemma OverlapInPrefix(requests: seq<Request>, events: seq<Event>, m: nat, i: int, j: int, k: int)
    requires m <= |events|
    ensures OverlapAt(requests, events[..m], i, j, k) <==> k < m && OverlapAt(requests, events, i, j, k)
  {
  }

  lemma SameOverlaps(requests: seq<Request>, x: seq<Event>, y: seq<Event>)
    requires forall i, j, k :: OverlapAt(requests, x, i, j, k) <==> OverlapAt(requests, y, i, j, k)
    ensures Overlaps(requests, x) <==> Overlaps(requests, y)
  {
  }

  /** Without a publication from `i` on, except at the end by a task that read at `i`, every
      overlap is older than `i`. */
  lemma NoNewOverlap(requests: seq<Request>, events: seq<Event>, i: nat, n: nat)
    requires i < n < |events|
    requires !exists j :: i <= j < n && IsPublication(requests, events[j])
    requires IsPublication(requests, events[n]) ==> forall j :: 0 <= j < n && events[j] == Read(events[n].task) ==> j == i
    ensures Overlaps(requests, events[..n + 1]) <==> Overlaps(requests, events[..i])
  {
    forall a, b, c
      ensures OverlapAt(requests, events[..n + 1], a, b, c) <==> OverlapAt(requests, events[..i], a, b, c)
    {
      OverlapInPrefix(requests, events, n + 1, a, b, c);
      OverlapInPrefix(requests, events, i, a, b, c);
    }
    SameOverlaps(requests, events[..n + 1], events[..i]);
  }

  lemma SameButLast(a: seq<nat>, b: seq<nat>, t: nat)
    ensures a + [t] == b + [t] <==> a == b
  {
    assert (a + [t])[..|a + [t]| - 1] == a && (b + [t])[..|b + [t]| - 1] == b;
  }

  /** The published configuration is built on every published activation, in order, exactly when
      no activation published after another one had published since its snapshot. */
  lemma {:induction false} ChainCompleteIff(explicitBackend: bool, requests: seq<Request>, states: seq<State>,
                                            events: seq<Event>, n: nat)
    requires IsRun(explicitBackend, requests, states, events) && n < |states|
    ensures Chain(requests, events[..n]) == Commits(requests, events[..n]) <==> !Overlaps(requests, events[..n])
  {
    if n > 0 {
      var m := n - 1;
      assert events[..n][..m] == events[..m];
      var i := ChainStep(explicitBackend, requests, states, events, m);
      CommitsBetween(requests, events, i, m);
      ChainCompleteIff(explicitBackend, requests, states, events, i);
      if !IsPublication(requests, events[m]) {
        OverlapsUnlessPublication(requests, events, m);
      } else if exists j :: i <= j < m && IsPublication(requests, events[j]) {
        var j :| i <= j < m && IsPublication(requests, events[j]);
        assert OverlapAt(requests, events[..n], i, j, m);
        ChainIsShort(explicitBackend, requests, states, events, i);
      } else {
        NoNewOverlap(requests, events, i, m);
        SameButLast(Chain(requests, events[..i]), Commits(requests, events[..i]), events[m].task);
      }
    }
  }

  lemma OverlapsUnlessPublication(requests: seq<Request>, events: seq<Event>, m: nat)
    requires m < |events| && !IsPublication(requests, events[m])
    ensures Overlaps(requests, events[..m + 1]) <==> Overlaps(requests, events[..m])
  {
    forall a, b, c
      ensures OverlapAt(requests, events[..m + 1], a, b, c) <==> OverlapAt(requests, events[..m], a, b, c)
    {
      OverlapInPrefix(requests, events, m + 1, a, b, c);
      OverlapInPrefix(requests, events, m, a, b, c);
    }
    SameOverlaps(requests, events[..m + 1], events[..m]);
  }

  /** Activations one after the other. */
  ghost predicate Serial(events: seq<Event>) {
    forall i :: 0 <= i < |events| ==>
      (events[i].Write? ==> i > 0 && events[i - 1] == Read(events[i].task))
  }

  lemma SerialReadIsLast(explicitBackend: bool, requests: seq<Request>, states: seq<State>, events: seq<Event>, k: nat)
    requires IsRun(explicitBackend, requests, states, events) && Serial(events)
    requires k < |events| && IsPublication(requests, events[k])
    ensures forall i :: 0 <= i < k && events[i] == Read(events[k].task) ==> i == k - 1
  {
    var i := ChainStep(explicitBackend, requests, states, events, k);
    assert events[k - 1] == Read(events[k].task);
  }

  /** Activations that do not overlap lose nothing: the configuration is the fold over all
      published requests in order. */
  lemma SerialRunsLoseNothing(explicitBackend: bool, requests: seq<Request>, states: seq<State>,
                              events: seq<Event>, n: nat)
    requires IsRun(explicitBackend, requests, states, events) && n < |states| && Serial(events)
    ensures !Overlaps(requests, events[..n])
    ensures Fold(explicitBackend, requests, states[0].service.config, Commits(requests, events[..n]))
            == Some(states[n].service.config)
  {
    forall i, j, k ensures !OverlapAt(requests, events[..n], i, j, k) {
      if 0 <= k < n && IsPublication(requests, events[k]) {
        SerialReadIsLast(explicitBackend, requests, states, events, k);
      }
    }
    ChainCompleteIff(explicitBackend, requests, states, events, n);
    EveryRunIsSound(explicitBackend, requests, states, events, n);
  }

  // ----- what an overlap loses -----

  /** The latest request of a kind among some tasks. */
  function LastOf(requests: seq<Request>, tasks: seq<nat>, kind: ModelKind): Option<Request>
    requires InRange(requests, tasks)
  {
    if tasks == [] then None
    else if requests[tasks[|tasks| - 1]].kind == kind then Some(requests[tasks[|tasks| - 1]])
    else LastOf(requests, tasks[..|tasks| - 1], kind)
  }

  /** The tasks applied while Candle is the backend: all of them if it was from the start,
      otherwise those from the first one on that switches to it. */
  function CandlePart(explicitBackend: bool, requests: seq<Request>, candle: bool, tasks: seq<nat>): (r: seq<nat>)
    requires InRange(requests, tasks)
    ensures InRange(requests, r)
  {
    if tasks == [] || candle || Switches(explicitBackend, requests[tasks[0]]) then tasks
    else CandlePart(explicitBackend, requests, false, tasks[1..])
  }

  function NamedId(c: Config, kind: ModelKind): string {
    if kind.Llm? then c.chatModel else c.embeddingModel
  }

  function CandleModelId(c: Config, kind: ModelKind): string {
    if kind.Llm? then c.candleChatModel else c.candleEmbeddingModel
  }

  /** The name that some activations leave for a kind of model, and what they leave for Candle to load. */
  function NameLeft(requests: seq<Request>, c: Config, tasks: seq<nat>, kind: ModelKind): string
    requires InRange(requests, tasks)
  {
    var last := LastOf(requests, tasks, kind);
    if last.Some? then last.value.modelId else NamedId(c, kind)
  }

  function CandleLeft(explicitBackend: bool, requests: seq<Request>, c: Config, tasks: seq<nat>, kind: ModelKind): string
    requires InRange(requests, tasks)
  {
    var last := LastOf(requests, CandlePart(explicitBackend, requests, c.backend.Candle?, tasks), kind);
    if last.Some? then CandleId(last.value) else CandleModelId(c, kind)
  }

  /** Candle is the backend after these activations. */
  predicate OnCandle(explicitBackend: bool, requests: seq<Request>, c: Config, tasks: seq<nat>)
    requires InRange(requests, tasks)
  {
    c.backend.Candle? || exists i :: 0 <= i < |tasks| && Switches(explicitBackend, requests[tasks[i]])
  }

  predicate AllPublish(requests: seq<Request>, tasks: seq<nat>)
    requires InRange(requests, tasks)
  {
    forall i :: 0 <= i < |tasks| ==> Publishes(requests[tasks[i]])
  }

  lemma {:induction false} CandlePartGrows(explicitBackend: bool, requests: seq<Request>, candle: bool, tasks: seq<nat>, t: nat)
    requires InRange(requests, tasks) && t < |requests|
    ensures var part := CandlePart(explicitBackend, requests, candle, tasks);
      CandlePart(explicitBackend, requests, candle, tasks + [t]) ==
        if candle || part != [] || Switches(explicitBackend, requests[t]) then part + [t] else []
    ensures !candle ==>
      (CandlePart(explicitBackend, requests, candle, tasks) != []
       <==> exists i :: 0 <= i < |tasks| && Switches(explicitBackend, requests[tasks[i]]))
  {
    if !candle {
      if tasks == [] {
        assert (tasks + [t])[1..] == [];
      } else if !Switches(explicitBackend, requests[tasks[0]]) {
        assert (tasks + [t])[1..] == tasks[1..] + [t];
        CandlePartGrows(explicitBackend, requests, candle, tasks[1..], t);
        forall i | 0 <= i < |tasks| && Switches(explicitBackend, requests[tasks[i]])
          ensures Switches(explicitBackend, requests[tasks[1..][i - 1]])
        {
        }
      }
    }
  }

  lemma OnCandleGrows(explicitBackend: bool, requests: seq<Request>, c: Config, tasks: seq<nat>, t: nat)
    requires InRange(requests, tasks) && t < |requests|
    ensures OnCandle(explicitBackend, requests, c, tasks + [t])
            <==> OnCandle(explicitBackend, requests, c, tasks) || Switches(explicitBackend, requests[t])
  {
    assert forall i :: 0 <= i < |tasks| ==> (tasks + [t])[i] == tasks[i];
    assert (tasks + [t])[|tasks|] == t;
  }

  lemma LastOfGrows(requests: seq<Request>, tasks: seq<nat>, t: nat, kind: ModelKind)
    requires InRange(requests, tasks) && t < |requests|
    ensures LastOf(requests, tasks + [t], kind) ==
      if requests[t].kind == kind then Some(requests[t]) else LastOf(requests, tasks, kind)
  {
    assert (tasks + [t])[..|tasks|] == tasks;
  }

  lemma CandleLeftGrows(explicitBackend: bool, requests: seq<Request>, c: Config, tasks: seq<nat>, t: nat, kind: ModelKind)
    requires InRange(requests, tasks) && t < |requests|
    ensures CandleLeft(explicitBackend, requests, c, tasks + [t], kind) ==
      if !OnCandle(explicitBackend, requests, c, tasks + [t]) then CandleModelId(c, kind)
      else if requests[t].kind == kind then CandleId(requests[t])
      else CandleLeft(explicitBackend, requests, c, tasks, kind)
  {
    var candle := c.backend.Candle?;
    CandlePartGrows(explicitBackend, requests, candle, tasks, t);
    OnCandleGrows(explicitBackend, requests, c, tasks, t);
    LastOfGrows(requests, CandlePart(explicitBackend, requests, candle, tasks), t, kind);
  }

  /** What one more activation changes. */
  lemma LeftGrows(explicitBackend: bool, requests: seq<Request>, c: Config, tasks: seq<nat>, t: nat, kind: ModelKind)
    requires InRange(requests, tasks) && t < |requests|
    ensures var all, r := tasks + [t], requests[t];
      && (OnCandle(explicitBackend, requests, c, all)
          <==> OnCandle(explicitBackend, requests, c, tasks) || Switches(explicitBackend, r))
      && NameLeft(requests, c, all, kind) == (if r.kind == kind then r.modelId else NameLeft(requests, c, tasks, kind))
      && CandleLeft(explicitBackend, requests, c, all, kind) ==
           if !OnCandle(explicitBackend, requests, c, all) then CandleModelId(c, kind)
           else if r.kind == kind then CandleId(r)
           else CandleLeft(explicitBackend, requests, c, tasks, kind)
  {
    OnCandleGrows(explicitBackend, requests, c, tasks, t);
    LastOfGrows(requests, tasks, t, kind);
    CandleLeftGrows(explicitBackend, requests, c, tasks, t, kind);
  }

  lemma {:induction false} CandleLeftWithout(explicitBackend: bool, requests: seq<Request>, c: Config, tasks: seq<nat>, kind: ModelKind)
    requires InRange(requests, tasks) && !OnCandle(explicitBackend, requests, c, tasks)
    ensures CandleLeft(explicitBackend, requests, c, tasks, kind) == CandleModelId(c, kind)
  {
    if tasks != [] {
      assert tasks == tasks[..|tasks| - 1] + [tasks[|tasks| - 1]];
      CandleLeftGrows(explicitBackend, requests, c, tasks[..|tasks| - 1], tasks[|tasks| - 1], kind);
    }
  }

  function Effect(explicitBackend: bool, requests: seq<Request>, c: Config, tasks: seq<nat>): Config
    requires InRange(requests, tasks)
  {
    Config(
      if OnCandle(explicitBackend, requests, c, tasks) then Candle else c.backend,
      NameLeft(requests, c, tasks, Llm), NameLeft(requests, c, tasks, Embedder),
      CandleLeft(explicitBackend, requests, c, tasks, Llm), CandleLeft(explicitBackend, requests, c, tasks, Embedder),
      c.other)
  }

  /** The fold in closed form: the latest request of each kind names its model, and the latest
      one applied under Candle is what Candle loads. */
  lemma {:induction false} FoldIsEffect(explicitBackend: bool, requests: seq<Request>, c: Config, tasks: seq<nat>)
    requires InRange(requests, tasks) && AllPublish(requests, tasks)
    ensures Fold(explicitBackend, requests, c, tasks) == Some(Effect(explicitBackend, requests, c, tasks))
  {
    if tasks != [] {
      var before, t := tasks[..|tasks| - 1], tasks[|tasks| - 1];
      FoldIsEffect(explicitBackend, requests, c, before);
      assert tasks == before + [t];
      LeftGrows(explicitBackend, requests, c, before, t, Llm);
      LeftGrows(explicitBackend, requests, c, before, t, Embedder);
      if !OnCandle(explicitBackend, requests, c, before) {
        CandleLeftWithout(explicitBackend, requests, c, before, Llm);
        CandleLeftWithout(explicitBackend, requests, c, before, Embedder);
      }
    }
  }

  lemma {:induction false} CommitsPublish(requests: seq<Request>, events: seq<Event>)
    ensures AllPublish(requests, Commits(requests, events))
  {
    if events != [] {
      CommitsPublish(requests, events[..|events| - 1]);
    }
  }

  lemma {:induction false} ChainPublishes(requests: seq<Request>, events: seq<Event>)
    ensures AllPublish(requests, Chain(requests, events))
    decreases |events|
  {
    if events != [] {
      var last := |events| - 1;
      ChainPublishes(requests, events[..if IsPublication(requests, events[last]) then ReadAt(events, events[last].task) else last]);
    }
  }

  /** Chain and commits end with the same task. */
  lemma {:induction false} ChainEndsLikeCommits(requests: seq<Request>, events: seq<Event>)
    ensures var chain, commits := Chain(requests, events), Commits(requests, events);
      && (chain == [] <==> commits == [])
      && (commits != [] ==> chain[|chain| - 1] == commits[|commits| - 1])
  {
    if events != [] && !IsPublication(requests, events[|events| - 1]) {
      ChainEndsLikeCommits(requests, events[..|events| - 1]);
    }
  }

  function OtherKind(kind: ModelKind): ModelKind {
    if kind.Llm? then Embedder else Llm
  }

  /** Two lists of activations leave the same behind for one kind of model. */
  predicate LeaveSame(explicitBackend: bool, requests: seq<Request>, c: Config, a: seq<nat>, b: seq<nat>, kind: ModelKind)
    requires InRange(requests, a) && InRange(requests, b)
  {
    && NameLeft(requests, c, a, kind) == NameLeft(requests, c, b, kind)
    && CandleLeft(explicitBackend, requests, c, a, kind) == CandleLeft(explicitBackend, requests, c, b, kind)
  }

  /** Lists that end with the same activation have the same effect exactly when they agree on
      the backend and on the kind of model that activation does not touch. */
  lemma SameEffectIff(explicitBackend: bool, requests: seq<Request>, c: Config, a: seq<nat>, b: seq<nat>, t: nat)
    requires InRange(requests, a) && InRange(requests, b) && t < |requests| && Publishes(requests[t])
    ensures Effect(explicitBackend, requests, c, a + [t]) == Effect(explicitBackend, requests, c, b + [t]) <==>
      && (OnCandle(explicitBackend, requests, c, a + [t]) <==> OnCandle(explicitBackend, requests, c, b + [t]))
      && LeaveSame(explicitBackend, requests, c, a + [t], b + [t], OtherKind(requests[t].kind))
  {
    LeftGrows(explicitBackend, requests, c, a, t, Llm);
    LeftGrows(explicitBackend, requests, c, a, t, Embedder);
    LeftGrows(explicitBackend, requests, c, b, t, Llm);
    LeftGrows(explicitBackend, requests, c, b, t, Embedder);
  }

  /** Exactly when the configuration is as if all published activations had happened one after
      the other: the chain and the full list agree on whether Candle was switched to, and on the
      model of the kind that the last publication did not activate. */
  lemma NothingLostIff(explicitBackend: bool, requests: seq<Request>, states: seq<State>, events: seq<Event>, n: nat)
    requires IsRun(explicitBackend, requests, states, events) && n < |states|
    ensures var c, chain, commits := states[0].service.config, Chain(requests, events[..n]), Commits(requests, events[..n]);
      Fold(explicitBackend, requests, c, commits) == Some(states[n].service.config) <==>
        commits == [] ||
        (&& (OnCandle(explicitBackend, requests, c, chain) <==> OnCandle(explicitBackend, requests, c, commits))
         && LeaveSame(explicitBackend, requests, c, chain, commits, OtherKind(requests[commits[|commits| - 1]].kind)))
  {
    var c, chain, commits := states[0].service.config, Chain(requests, events[..n]), Commits(requests, events[..n]);
    EveryRunIsSound(explicitBackend, requests, states, events, n);
    ChainEndsLikeCommits(requests, events[..n]);
    ChainPublishes(requests, events[..n]);
    CommitsPublish(requests, events[..n]);
    FoldIsEffect(explicitBackend, requests, c, chain);
    FoldIsEffect(explicitBackend, requests, c, commits);
    if commits != [] {
      var t := commits[|commits| - 1];
      var a, b := chain[..|chain| - 1], commits[..|commits| - 1];
      assert chain == a + [t] && commits == b + [t];
      SameEffectIff(explicitBackend, requests, c, a, b, t);
    }
  }

  /** The latest requests of a kind in two lists leave the same name, and under Candle also the
      same model to load. */
  predicate SameLatest(requests: seq<Request>, c: Config, a: seq<nat>, b: seq<nat>, kind: ModelKind)
    requires InRange(requests, a) && InRange(requests, b)
  {
    var x, y := LastOf(requests, a, kind), LastOf(requests, b, kind);
    && (if x.Some? then x.value.modelId else NamedId(c, kind)) == (if y.Some? then y.value.modelId else NamedId(c, kind))
    && (c.backend.Candle? ==>
          (if x.Some? then CandleId(x.value) else CandleModelId(c, kind))
          == (if y.Some? then CandleId(y.value) else CandleModelId(c, kind)))
  }

  lemma LeaveSameIffSameLatest(explicitBackend: bool, requests: seq<Request>, c: Config, a: seq<nat>, b: seq<nat>, kind: ModelKind)
    requires InRange(requests, a) && InRange(requests, b) && (explicitBackend || c.backend.Candle?)
    ensures LeaveSame(explicitBackend, requests, c, a, b, kind) <==> SameLatest(requests, c, a, b, kind)
    ensures OnCandle(explicitBackend, requests, c, a) <==> OnCandle(explicitBackend, requests, c, b)
  {
    FixedCandlePart(explicitBackend, requests, c, a);
    FixedCandlePart(explicitBackend, requests, c, b);
  }

  /** With a backend that cannot change, only the latest requests of the other kind matter. */
  lemma NothingLostIffFixedBackend(explicitBackend: bool, requests: seq<Request>, states: seq<State>,
                                   events: seq<Event>, n: nat)
    requires IsRun(explicitBackend, requests, states, events) && n < |states|
    requires explicitBackend || states[0].service.config.backend.Candle?
    ensures var c, chain, commits := states[0].service.config, Chain(requests, events[..n]), Commits(requests, events[..n]);
      Fold(explicitBackend, requests, c, commits) == Some(states[n].service.config) <==>
        commits == [] || SameLatest(requests, c, chain, commits, OtherKind(requests[commits[|commits| - 1]].kind))
  {
    NothingLostIff(explicitBackend, requests, states, events, n);
    var c, chain, commits := states[0].service.config, Chain(requests, events[..n]), Commits(requests, events[..n]);
    if commits != [] {
      LeaveSameIffSameLatest(explicitBackend, requests, c, chain, commits, OtherKind(requests[commits[|commits| - 1]].kind));
    }
  }

  lemma {:induction false} FixedCandlePart(explicitBackend: bool, requests: seq<Request>, c: Config, tasks: seq<nat>)
    requires InRange(requests, tasks) && (explicitBackend || c.backend.Candle?)
    ensures CandlePart(explicitBackend, requests, c.backend.Candle?, tasks) == if c.backend.Candle? then tasks else []
    ensures OnCandle(explicitBackend, requests, c, tasks) <==> c.backend.Candle?
  {
    if tasks != [] {
      FixedCandlePart(explicitBackend, requests, c, tasks[1..]);
    }
  }

  // ----- overlaps that do and do not lose something -----

  /** Two activations that both read before either writes. */
  lemma OverlappingPair(requests: seq<Request>, config: Config) returns (states: seq<State>, events: seq<Event>)
    requires |requests| == 2 && Publishes(requests[0]) && Publishes(requests[1])
    ensures IsRun(true, requests, states, events) && |events| == 4 && events[..4] == events
    ensures Overlaps(requests, events) && Commits(requests, events) == [0, 1]
    ensures states[0].service.config == config
    ensures Ok(states[4].service.config) == Apply(true, config, requests[1])
  {
    events := [Read(0), Read(1), Write(0), Write(1)];
    var s0 := State(Service(config, "token"), [Waiting, Waiting]);
    var s1 := Next(true, requests, s0, events[0]).value;
    var s2 := Next(true, requests, s1, events[1]).value;
    var s3 := Next(true, requests, s2, events[2]).value;
    var s4 := Next(true, requests, s3, events[3]).value;
    states := [s0, s1, s2, s3, s4];
    assert OverlapAt(requests, events, 1, 2, 3);
    assert events == [] + [Read(0)] + [Read(1)] + [Write(0)] + [Write(1)];
    CommitsGrow(requests, [], Read(0));
    CommitsGrow(requests, [] + [Read(0)], Read(1));
    CommitsGrow(requests, [] + [Read(0)] + [Read(1)], Write(0));
    CommitsGrow(requests, [] + [Read(0)] + [Read(1)] + [Write(0)], Write(1));
  }

  /** A chat model and an embedder: the chat model activated first is gone. */
  lemma OverlapLosesAnActivation() returns (requests: seq<Request>, states: seq<State>, events: seq<Event>)
    ensures IsRun(true, requests, states, events) && |events| == 4
    ensures Overlaps(requests, events) && Commits(requests, events) == [0, 1]
    ensures states[4].service.config.chatModel == states[0].service.config.chatModel != requests[0].modelId
  {
    requests := [Request("new-chat", Llm, None, []), Request("new-embedder", Embedder, None, [])];
    states, events := OverlappingPair(requests, Config(OpenAIProxy, "old-chat", "old-embedder", "", "", ""));
    assert "new-chat"[0] != "old-chat"[0];
  }

  /** Two chat models overlap just as much, but the second would have replaced the first anyway. */
  lemma OverlapMayLoseNothing() returns (requests: seq<Request>, states: seq<State>, events: seq<Event>)
    ensures IsRun(true, requests, states, events) && |events| == 4
    ensures Overlaps(requests, events) && Commits(requests, events) == [0, 1]
    ensures Fold(true, requests, states[0].service.config, Commits(requests, events)) == Some(states[4].service.config)
  {
    requests := [Request("first-chat", Llm, None, []), Request("second-chat", Llm, None, [])];
    var config := Config(OpenAIProxy, "old-chat", "old-embedder", "", "", "");
    states, events := OverlappingPair(requests, config);
    FoldOfTwo(true, requests, config, 0, 1);
  }

  // ----- order of activations -----

  lemma FoldOfTwo(explicitBackend: bool, requests: seq<Request>, c: Config, a: nat, b: nat)
    requires a < |requests| && b < |requests|
    ensures Fold(explicitBackend, requests, c, [a, b]) ==
      if Apply(explicitBackend, c, requests[a]).Err? then None
      else
        var r := Apply(explicitBackend, Apply(explicitBackend, c, requests[a]).value, requests[b]);
        if r.Ok? then Some(r.value) else None
  {
    assert [a, b][..1] == [a] && [a][..0] == [];
    assert Fold(explicitBackend, requests, c, []) == Some(c);
  }

  /** A chat and an embedder activation commute exactly when: Candle is already the backend, or
      both or neither switch to it, or the one that comes too early to set its Candle model
      would not have changed it. */
  lemma ActivationsCommuteIff(explicitBackend: bool, c: Config, chat: Request, embedder: Request)
    requires chat.kind.Llm? && embedder.kind.Embedder?
    ensures Fold(explicitBackend, [chat, embedder], c, [0, 1]) == Fold(explicitBackend, [chat, embedder], c, [1, 0]) <==>
      || c.backend.Candle?
      || (Switches(explicitBackend, chat) <==> Switches(explicitBackend, embedder))
      || (Switches(explicitBackend, embedder) && CandleId(chat) == c.candleChatModel)
      || (Switches(explicitBackend, chat) && CandleId(embedder) == c.candleEmbeddingModel)
  {
    FoldOfTwo(explicitBackend, [chat, embedder], c, 0, 1);
    FoldOfTwo(explicitBackend, [chat, embedder], c, 1, 0);
  }
}
