/**
  The local chat runtime: autoregressive decoding with a key-value cache, and the lazily
  loaded runtime behind it.

  The network, the tokenizer, the repeat penalty, the sampler and the completion sanitiser are
  arbitrary functions: the theorems hold whatever they compute.
 */
module ChatRuntime {
  import opened Wrappers

  type Token = nat
  type Logits = nat
  type SamplerState = nat

  /** What loading a model yields.  `net(cache, input, startPos)` is the forward pass over
      `input` when `cache` has been processed before it. */
  datatype Model = Model(
    net: (seq<Token>, seq<Token>, nat) -> Option<Logits>,
    encode: string -> Option<seq<Token>>,
    decode: seq<Token> -> Option<string>,
    eos: set<Token>)

  /** What makes a key-value cache a cache: when the position is right, going on from it gives
      what processing the whole text from nothing would give. */
  ghost predicate CoherentAt(m: Model, cache: seq<Token>, input: seq<Token>) {
    m.net(cache, input, |cache|) == m.net([], cache + input, 0)
  }

  ghost predicate Coherent(m: Model) {
    forall cache, input :: CoherentAt(m, cache, input)
  }

  datatype Request = Request(prompt: string, maxNewTokens: nat, temperature: real, sanitize: string -> string)

  /** The part of the configuration that decoding reads.  A neutral repeat penalty is a
      `penalize` that returns its logits. */
  datatype Config = Config(
    seed: nat,
    repeatLastN: nat,
    penalize: (Logits, seq<Token>) -> Option<Logits>,
    start: (nat, real) -> SamplerState,
    sample: (SamplerState, Logits) -> Option<(SamplerState, Token)>)

  datatype Failure =
    | TokenizeFailed | NoPromptTokens | ForwardFailed | PenaltyFailed | SampleFailed
    | NothingGenerated | DecodeFailed | EmptyCompletion | LoadFailed

  datatype Completion = Completion(text: string, promptTokens: nat, completionTokens: nat)

  function LastTokens(tokens: seq<Token>, n: nat): seq<Token> {
    if n >= |tokens| then tokens else tokens[|tokens| - n..]
  }

  /** One sampling step from the logits of a text. */
  function Pick(c: Config, tokens: seq<Token>, logits: Option<Logits>, s: SamplerState)
    : Result<(SamplerState, Token), Failure>
  {
    if logits.None? then Err(ForwardFailed)
    else
      var penalized := c.penalize(logits.value, LastTokens(tokens, c.repeatLastN));
      if penalized.None? then Err(PenaltyFailed)
      else
        var drawn := c.sample(s, penalized.value);
        if drawn.None? then Err(SampleFailed) else Ok(drawn.value)
  }

  /** The reference: every step recomputes the network over the whole text.  The result is what
      is generated after `tokens`, in at most `budget` steps. */
  function Recompute(m: Model, c: Config, tokens: seq<Token>, s: SamplerState, budget: nat)
    : Result<seq<Token>, Failure>
    decreases budget
  {
    if budget == 0 then Ok([])
    else
      match Pick(c, tokens, m.net([], tokens, 0), s)
      case Err(e) => Err(e)
      case Ok((s', t)) => if t in m.eos then Ok([]) else Prepend([t], Recompute(m, c, tokens + [t], s', budget - 1))
  }

  function Prepend(generated: seq<Token>, r: Result<seq<Token>, Failure>): Result<seq<Token>, Failure> {
    if r.Ok? then Ok(generated + r.value) else r
  }

  function Budget(r: Request): nat {
    if r.maxNewTokens > 1 then r.maxNewTokens else 1
  }

  /** From generated tokens to a completion. */
  function Present(m: Model, r: Request, promptTokens: nat, generated: seq<Token>): Result<Completion, Failure> {
    if generated == [] then Err(NothingGenerated)
    else
      var text := m.decode(generated);
      if text.None? then Err(DecodeFailed)
      else if r.sanitize(text.value) == "" then Err(EmptyCompletion)
      else Ok(Completion(r.sanitize(text.value), promptTokens, |generated|))
  }

  /** The answer to a request, as a function of the model and the request alone. */
  function Answer(m: Model, c: Config, r: Request): Result<Completion, Failure> {
    var tokens := m.encode(r.prompt);
    if tokens.None? then Err(TokenizeFailed)
    else if tokens.value == [] then Err(NoPromptTokens)
    else
      match Recompute(m, c, tokens.value, c.start(c.seed, r.temperature), Budget(r))
      case Err(e) => Err(e)
      case Ok(generated) => Present(m, r, |tokens.value|, generated)
  }

  /** Generated text holds no end-of-text token and respects the budget. */
  lemma {:induction false} RecomputeWithinBudget(m: Model, c: Config, tokens: seq<Token>, s: SamplerState, budget: nat)
    ensures var r := Recompute(m, c, tokens, s, budget);
      r.Ok? ==> |r.value| <= budget && forall t :: t in r.value ==> t !in m.eos
    decreases budget
  {
    if budget > 0 {
      var p := Pick(c, tokens, m.net([], tokens, 0), s);
      if p.Ok? && p.value.1 !in m.eos {
        RecomputeWithinBudget(m, c, tokens + [p.value.1], p.value.0, budget - 1);
      }
    }
  }

  lemma AnswerWithinBudget(m: Model, c: Config, r: Request)
    ensures var a := Answer(m, c, r);
      a.Ok? ==> 1 <= a.value.completionTokens <= Budget(r) && a.value.text != ""
  {
    var tokens := m.encode(r.prompt);
    if tokens.Some? {
      RecomputeWithinBudget(m, c, tokens.value, c.start(c.seed, r.temperature), Budget(r));
    }
  }

  // ----- what an answer is drawn from -----

  /** The last `n` tokens of a text, all of them when there are fewer. */
  ghost predicate IsWindow(text: seq<Token>, n: nat, w: seq<Token>) {
    && |w| == (if n <= |text| then n else |text|)
    && exists u :: text == u + w
  }

  /** From sampler state `s` the text is continued by `t`: the network reads the whole text, the
      penalty sees its last `repeatLastN` tokens, and the sampler draws from what it leaves. */
  ghost predicate Draws(m: Model, c: Config, text: seq<Token>, s: SamplerState, s': SamplerState, t: Token) {
    exists w, logits, penalized ::
      && IsWindow(text, c.repeatLastN, w)
      && m.net([], text, 0) == Some(logits)
      && c.penalize(logits, w) == Some(penalized)
      && c.sample(s, penalized) == Some((s', t))
  }

  /** Drawing fails in one of its three parts. */
  ghost predicate DrawFails(m: Model, c: Config, text: seq<Token>, s: SamplerState, e: Failure) {
    match m.net([], text, 0)
    case None => e == ForwardFailed
    case Some(logits) =>
      exists w :: IsWindow(text, c.repeatLastN, w) &&
        match c.penalize(logits, w)
        case None => e == PenaltyFailed
        case Some(penalized) => c.sample(s, penalized) == None && e == SampleFailed
  }

  lemma LastTokensIsWindow(text: seq<Token>, n: nat)
    ensures forall w :: IsWindow(text, n, w) <==> w == LastTokens(text, n)
  {
    var last := LastTokens(text, n);
    assert text == text[..|text| - |last|] + last;
    forall w | IsWindow(text, n, w) ensures w == last {
      var u :| text == u + w;
      assert w == text[|text| - |w|..];
    }
  }

  lemma PickIsDraw(m: Model, c: Config, text: seq<Token>, s: SamplerState)
    ensures var p := Pick(c, text, m.net([], text, 0), s);
      && (forall s': SamplerState, t: Token :: Draws(m, c, text, s, s', t) <==> p == Ok((s', t)))
      && (forall e :: DrawFails(m, c, text, s, e) <==> p == Err(e))
  {
    LastTokensIsWindow(text, c.repeatLastN);
    assert IsWindow(text, c.repeatLastN, LastTokens(text, c.repeatLastN));
  }

  /** Token by token: each is drawn from the prompt and what was generated before it, from the
      sampler state the draw before it left, and none ends the text. */
  ghost predicate Traces(m: Model, c: Config, prompt: seq<Token>, generated: seq<Token>, states: seq<SamplerState>) {
    && |states| == |generated| + 1
    && forall i :: 0 <= i < |generated| ==>
         && Draws(m, c, prompt + generated[..i], states[i], states[i + 1], generated[i])
         && generated[i] !in m.eos
  }

  /** A finished decoding: the budget is used up, or the next draw ends the text. */
  ghost predicate Finishes(m: Model, c: Config, prompt: seq<Token>, budget: nat, generated: seq<Token>, s: SamplerState) {
    || |generated| == budget
    || (|generated| < budget && exists s', t :: Draws(m, c, prompt + generated, s, s', t) && t in m.eos)
  }

  ghost predicate IsDecoding(m: Model, c: Config, prompt: seq<Token>, s0: SamplerState, budget: nat,
                             generated: seq<Token>, states: seq<SamplerState>)
  {
    && Traces(m, c, prompt, generated, states) && states[0] == s0
    && Finishes(m, c, prompt, budget, generated, states[|generated|])
  }

  /** The first token taken off a trace. */
  lemma TraceTail(m: Model, c: Config, prompt: seq<Token>, generated: seq<Token>, states: seq<SamplerState>)
    requires generated != [] && |states| == |generated| + 1
    ensures Traces(m, c, prompt, generated, states) <==>
      && Draws(m, c, prompt, states[0], states[1], generated[0]) && generated[0] !in m.eos
      && Traces(m, c, prompt + [generated[0]], generated[1..], states[1..])
    ensures prompt + [generated[0]] + generated[1..] == prompt + generated
  {
    var rest, more := generated[1..], states[1..];
    assert prompt + generated[..0] == prompt;
    forall i {:trigger rest[i]} | 0 <= i < |rest|
      ensures prompt + [generated[0]] + rest[..i] == prompt + generated[..i + 1]
      ensures rest[i] == generated[i + 1] && more[i] == states[i + 1] && more[i + 1] == states[i + 2]
    {
    }
    assert forall i :: 0 < i < |generated| ==> generated[i] == rest[i - 1];
  }

  lemma {:induction false} RecomputeIsDecoding(m: Model, c: Config, prompt: seq<Token>, s0: SamplerState, budget: nat)
    returns (states: seq<SamplerState>)
    ensures var r := Recompute(m, c, prompt, s0, budget);
      r.Ok? ==> IsDecoding(m, c, prompt, s0, budget, r.value, states)
    decreases budget
  {
    states := [s0];
    var r := Recompute(m, c, prompt, s0, budget);
    if budget > 0 && r.Ok? {
      PickIsDraw(m, c, prompt, s0);
      var p := Pick(c, prompt, m.net([], prompt, 0), s0).value;
      assert Draws(m, c, prompt, s0, p.0, p.1);
      if p.1 in m.eos {
        assert prompt + [] == prompt;
      } else {
        var more := RecomputeIsDecoding(m, c, prompt + [p.1], p.0, budget - 1);
        states := [s0] + more;
        assert r.value[1..] == Recompute(m, c, prompt + [p.1], p.0, budget - 1).value && states[1..] == more;
        TraceTail(m, c, prompt, r.value, states);
      }
    }
  }

  /** There is only one decoding. */
  lemma {:induction false} DecodingIsRecomputed(m: Model, c: Config, prompt: seq<Token>, s0: SamplerState, budget: nat,
                                                generated: seq<Token>, states: seq<SamplerState>)
    requires IsDecoding(m, c, prompt, s0, budget, generated, states)
    ensures Recompute(m, c, prompt, s0, budget) == Ok(generated)
    decreases budget
  {
    PickIsDraw(m, c, prompt, s0);
    if generated == [] {
      assert prompt + generated == prompt;
    } else {
      TraceTail(m, c, prompt, generated, states);
      assert states[1..][|generated| - 1] == states[|generated|];
      DecodingIsRecomputed(m, c, prompt + [generated[0]], states[1], budget - 1, generated[1..], states[1..]);
      assert [generated[0]] + generated[1..] == generated;
    }
  }

  /** A completion in terms of its draws: the text is what the sanitiser makes of the decoded
      tokens, and the two counts are those of the prompt and of the generated tokens. */
  ghost predicate IsCompletion(m: Model, c: Config, r: Request, prompt: seq<Token>, generated: seq<Token>,
                               states: seq<SamplerState>, text: string, answer: Completion)
  {
    && m.encode(r.prompt) == Some(prompt) && prompt != []
    && IsDecoding(m, c, prompt, c.start(c.seed, r.temperature), if r.maxNewTokens == 0 then 1 else r.maxNewTokens,
                  generated, states)
    && generated != [] && m.decode(generated) == Some(text)
    && answer.text == r.sanitize(text) && answer.text != ""
    && answer.promptTokens == |prompt| && answer.completionTokens == |generated|
  }

  /** Exactly the completions drawn like this are answers. */
  lemma AnswerIsDrawn(m: Model, c: Config, r: Request)
    returns (prompt: seq<Token>, generated: seq<Token>, states: seq<SamplerState>, text: string)
    ensures Answer(m, c, r).Ok? ==> IsCompletion(m, c, r, prompt, generated, states, text, Answer(m, c, r).value)
  {
    prompt, generated, states, text := [], [], [], "";
    if Answer(m, c, r).Ok? {
      prompt := m.encode(r.prompt).value;
      var s0 := c.start(c.seed, r.temperature);
      generated := Recompute(m, c, prompt, s0, Budget(r)).value;
      states := RecomputeIsDecoding(m, c, prompt, s0, Budget(r));
      text := m.decode(generated).value;
    }
  }

  lemma DrawnIsAnswer(m: Model, c: Config, r: Request, prompt: seq<Token>, generated: seq<Token>,
                      states: seq<SamplerState>, text: string, answer: Completion)
    requires IsCompletion(m, c, r, prompt, generated, states, text, answer)
    ensures Answer(m, c, r) == Ok(answer)
  {
    DecodingIsRecomputed(m, c, prompt, c.start(c.seed, r.temperature), Budget(r), generated, states);
  }

  /** The ways in which a decoding is no answer. */
  lemma AnswerFailures(m: Model, c: Config, r: Request, prompt: seq<Token>, generated: seq<Token>, states: seq<SamplerState>)
    ensures m.encode(r.prompt) == None ==> Answer(m, c, r) == Err(TokenizeFailed)
    ensures m.encode(r.prompt) == Some([]) ==> Answer(m, c, r) == Err(NoPromptTokens)
    ensures m.encode(r.prompt) == Some(prompt) && prompt != []
            && IsDecoding(m, c, prompt, c.start(c.seed, r.temperature), if r.maxNewTokens == 0 then 1 else r.maxNewTokens,
                          generated, states) ==>
      && (generated == [] ==> Answer(m, c, r) == Err(NothingGenerated))
      && (generated != [] && m.decode(generated) == None ==> Answer(m, c, r) == Err(DecodeFailed))
      && (generated != [] && m.decode(generated).Some? && r.sanitize(m.decode(generated).value) == "" ==>
            Answer(m, c, r) == Err(EmptyCompletion))
  {
    if m.encode(r.prompt) == Some(prompt) && prompt != []
       && IsDecoding(m, c, prompt, c.start(c.seed, r.temperature), Budget(r), generated, states) {
      DecodingIsRecomputed(m, c, prompt, c.start(c.seed, r.temperature), Budget(r), generated, states);
    }
  }

  /** A draw that fails after any number of good ones fails the decoding, with its own failure. */
  lemma {:induction false} FailedDrawFails(m: Model, c: Config, prompt: seq<Token>, budget: nat,
                                           generated: seq<Token>, states: seq<SamplerState>, e: Failure)
    requires Traces(m, c, prompt, generated, states) && |generated| < budget
    requires DrawFails(m, c, prompt + generated, states[|generated|], e)
    ensures Recompute(m, c, prompt, states[0], budget) == Err(e)
    decreases budget
  {
    PickIsDraw(m, c, prompt, states[0]);
    if generated == [] {
      assert prompt + generated == prompt;
    } else {
      TraceTail(m, c, prompt, generated, states);
      FailedDrawFails(m, c, prompt + [generated[0]], budget - 1, generated[1..], states[1..], e);
    }
  }

  /** One call of the network, as it was made. */
  datatype Call = Call(cache: seq<Token>, input: seq<Token>, startPos: nat)

  /** The call continued exactly where the cache ended, and fed a prefix of `text`. */
  ghost predicate InStep(call: Call, text: seq<Token>) {
    call.startPos == |call.cache| && call.cache + call.input <= text
  }

  /** A loaded chat model.  `calls` records the network calls since the cache was cleared. */
  class Runtime {
    const model: Model
    var cache: seq<Token>
    ghost var calls: seq<Call>

    constructor (model: Model)
      ensures this.model == model && cache == [] && calls == []
    {
      this.model := model;
      cache := [];
      calls := [];
    }

    method ClearKvCache()
      modifies this
      ensures cache == [] && calls == []
    {
      cache := [];
      calls := [];
    }

    /** A failed pass may leave anything in the cache. */
    method Forward(input: seq<Token>, startPos: nat) returns (logits: Option<Logits>)
      modifies this
      ensures logits == model.net(old(cache), input, startPos)
      ensures logits.Some? ==> cache == old(cache) + input
      ensures calls == old(calls) + [Call(old(cache), input, startPos)]
    {
      logits := model.net(cache, input, startPos);
      calls := calls + [Call(cache, input, startPos)];
      cache := cache + input;
      if logits.None? {
        cache := *;
      }
    }
  }

  /** Decoding with the cache: the prompt once, then one token at a time.  Every call continues
      exactly where the cache ends, and the result is that of recomputing everything. */
  method Generate(runtime: Runtime, c: Config, prompt: seq<Token>, s0: SamplerState, budget: nat)
    returns (r: Result<seq<Token>, Failure>, ghost text: seq<Token>)
    requires prompt != [] && runtime.cache == [] && runtime.calls == [] && Coherent(runtime.model)
    modifies runtime
    ensures r == Recompute(runtime.model, c, prompt, s0, budget)
    ensures prompt <= text && (r.Ok? ==> text == prompt + r.value)
    ensures forall i :: 0 <= i < |runtime.calls| ==> InStep(runtime.calls[i], text)
  {
    var m := runtime.model;
    var tokens, generated: seq<Token>, s := prompt, [], s0;
    text := prompt;
    PrependNothing(Recompute(m, c, prompt, s0, budget));
    for index := 0 to budget
      invariant tokens == prompt + generated == text && |generated| == index
      invariant runtime.cache == if index == 0 then [] else tokens[..|tokens| - 1]
      invariant forall i :: 0 <= i < |runtime.calls| ==> InStep(runtime.calls[i], text)
      invariant Recompute(m, c, prompt, s0, budget) == Prepend(generated, Recompute(m, c, tokens, s, budget - index))
    {
      var contextSize := if index > 0 then 1 else |tokens|;
      var startPos := |tokens| - contextSize;
      var input := tokens[startPos..];
      assert runtime.cache + input == tokens && startPos == |runtime.cache|;
      assert CoherentAt(m, runtime.cache, input);
      var logits := runtime.Forward(input, startPos);
      var picked := Pick(c, tokens, logits, s);
      if picked.Err? {
        return Err(picked.error), text;
      }
      var next := picked.value.1;
      if next in m.eos {
        assert generated + [] == generated;
        return Ok(generated), text;
      }
      RecomputeContinues(m, c, tokens, s, budget - index, picked.value, generated);
      s := picked.value.0;
      tokens := tokens + [next];
      generated := generated + [next];
      text := tokens;
    }
    assert generated + [] == generated;
    r := Ok(generated);
  }

  lemma PrependNothing(r: Result<seq<Token>, Failure>)
    ensures Prepend([], r) == r
  {
    if r.Ok? {
      assert [] + r.value == r.value;
    }
  }

  lemma PrependStep(generated: seq<Token>, t: Token, r: Result<seq<Token>, Failure>)
    ensures Prepend(generated, Prepend([t], r)) == Prepend(generated + [t], r)
  {
    if r.Ok? {
      assert generated + ([t] + r.value) == generated + [t] + r.value;
    }
  }

  lemma RecomputeContinues(m: Model, c: Config, tokens: seq<Token>, s: SamplerState, left: nat,
                           p: (SamplerState, Token), generated: seq<Token>)
    requires left > 0 && Pick(c, tokens, m.net([], tokens, 0), s) == Ok(p) && p.1 !in m.eos
    ensures Prepend(generated, Recompute(m, c, tokens, s, left)) ==
      Prepend(generated + [p.1], Recompute(m, c, tokens + [p.1], p.0, left - 1))
  {
    PrependStep(generated, p.1, Recompute(m, c, tokens + [p.1], p.0, left - 1));
  }

  /** A request on a loaded runtime: whatever an earlier request left in the cache, the answer
      is the reference answer. */
  method GenerateWithRuntime(runtime: Runtime, c: Config, request: Request) returns (r: Result<Completion, Failure>)
    requires Coherent(runtime.model)
    modifies runtime
    ensures r == Answer(runtime.model, c, request)
    ensures r.Ok? ==> runtime.cache == []
  {
    runtime.ClearKvCache();
    var tokens := runtime.model.encode(request.prompt);
    if tokens.None? {
      return Err(TokenizeFailed);
    }
    if tokens.value == [] {
      return Err(NoPromptTokens);
    }
    var generated, _ := Generate(runtime, c, tokens.value, c.start(c.seed, request.temperature), Budget(request));
    if generated.Err? {
      return Err(generated.error);
    }
    r := Present(runtime.model, request, |tokens.value|, generated.value);
    if r.Ok? || r.error.EmptyCompletion? {
      runtime.ClearKvCache();
    }
  }

  // ----- the lazily loaded runtime -----

  datatype RuntimeState = Uninitialized | Ready(runtime: Runtime) | Failed(error: string)

  /** The same state without its cache. */
  datatype Loaded = NotYet | Has(model: Model) | Broken

  /** What one request does to the state and what it is answered, `load` being what loading
      would give at that moment. */
  function AfterRequest(s: Loaded, load: Result<Model, string>): Loaded {
    if s.Has? then s else if load.Ok? then Has(load.value) else Broken
  }

  function Reply(s: Loaded, c: Config, load: Result<Model, string>, r: Request): Result<Completion, Failure> {
    var after := AfterRequest(s, load);
    if after.Has? then Answer(after.model, c, r) else Err(LoadFailed)
  }

  class Backend {
    const config: Config
    var chatState: RuntimeState

    ghost function Abstract(): Loaded
      reads this
    {
      match chatState
      case Uninitialized => NotYet
      case Ready(runtime) => Has(runtime.model)
      case Failed(_) => Broken
    }

    constructor (config: Config)
      ensures this.config == config && Abstract() == NotYet
    {
      this.config := config;
      chatState := Uninitialized;
    }

    /** One chat request; the mutex makes it one step. */
    method RunChat(request: Request, load: Result<Model, string>) returns (r: Result<Completion, Failure>)
      requires load.Ok? ==> Coherent(load.value)
      requires chatState.Ready? ==> Coherent(chatState.runtime.model)
      modifies this, if chatState.Ready? then {chatState.runtime} else {}
      ensures Abstract() == AfterRequest(old(Abstract()), load)
      ensures r == Reply(old(Abstract()), config, load, request)
      ensures old(chatState.Ready?) ==> chatState == old(chatState)
      ensures chatState.Ready? ==> Coherent(chatState.runtime.model) && (fresh(chatState.runtime) || old(chatState) == chatState)
    {
      if chatState.Uninitialized? || chatState.Failed? {
        if load.Ok? {
          var runtime := new Runtime(load.value);
          chatState := Ready(runtime);
        } else {
          chatState := Failed(load.error);
        }
      }
      match chatState
      case Ready(runtime) => r := GenerateWithRuntime(runtime, config, request);
      case Failed(_) => r := Err(LoadFailed);
      case Uninitialized => assert false;
    }
  }

  /** A request as it arrives, with what loading would give then. */
  datatype Arrival = Arrival(request: Request, load: Result<Model, string>)

  function StateAfter(history: seq<Arrival>): Loaded {
    if history == [] then NotYet
    else AfterRequest(StateAfter(history[..|history| - 1]), history[|history| - 1].load)
  }

  /** After any history of answered, failed and load-failed requests, the runtime is that of the
      first load that succeeded: it is never reloaded, and retried only while it failed. */
  lemma {:induction false} FirstSuccessfulLoadStays(history: seq<Arrival>, k: nat)
    requires k < |history| && history[k].load.Ok?
    requires forall i :: 0 <= i < k ==> history[i].load.Err?
    ensures StateAfter(history) == Has(history[k].load.value)
  {
    var last := |history| - 1;
    if k < last {
      FirstSuccessfulLoadStays(history[..last], k);
    } else {
      NoLoadSucceeded(history[..last]);
    }
  }

  lemma {:induction false} NoLoadSucceeded(history: seq<Arrival>)
    requires forall i :: 0 <= i < |history| ==> history[i].load.Err?
    ensures StateAfter(history) == if history == [] then NotYet else Broken
  {
    if history != [] {
      NoLoadSucceeded(history[..|history| - 1]);
    }
  }

  /** What the i-th request of a history is answered. */
  function ReplyIn(config: Config, history: seq<Arrival>, i: nat): Result<Completion, Failure>
    requires i < |history|
  {
    Reply(StateAfter(history[..i]), config, history[i].load, history[i].request)
  }

  /** A backend that serves a whole history of requests: its state and every single reply are
      those of the specification, whatever the requests before left in the cache. */
  method ServeAll(config: Config, history: seq<Arrival>) returns (backend: Backend, replies: seq<Result<Completion, Failure>>)
    requires forall i :: 0 <= i < |history| && history[i].load.Ok? ==> Coherent(history[i].load.value)
    ensures backend.Abstract() == StateAfter(history)
    ensures |replies| == |history|
    ensures forall i :: 0 <= i < |history| ==> replies[i] == ReplyIn(config, history, i)
  {
    backend := new Backend(config);
    replies := [];
    for n := 0 to |history|
      invariant fresh(backend) && backend.config == config && backend.Abstract() == StateAfter(history[..n])
      invariant backend.chatState.Ready? ==> fresh(backend.chatState.runtime) && Coherent(backend.chatState.runtime.model)
      invariant |replies| == n
      invariant forall i :: 0 <= i < n ==> replies[i] == ReplyIn(config, history, i)
    {
      var r := backend.RunChat(history[n].request, history[n].load);
      replies := replies + [r];
      assert history[..n + 1][..n] == history[..n];
    }
    assert history[..|history|] == history;
  }

  /** `k` is the first request at which loading succeeds. */
  ghost predicate FirstLoad(history: seq<Arrival>, k: int) {
    0 <= k < |history| && history[k].load.Ok? && forall i :: 0 <= i < k ==> history[i].load.Err?
  }

  /** Hence every request from the first successful load on is answered as that model answers it
      alone, and every request before it fails: no reply depends on the requests before it. */
  lemma RepliesForgetHistory(config: Config, history: seq<Arrival>, i: nat)
    requires i < |history|
    ensures forall k :: FirstLoad(history, k) && k <= i ==>
      ReplyIn(config, history, i) == Answer(history[k].load.value, config, history[i].request)
    ensures (forall k :: 0 <= k <= i ==> history[k].load.Err?) ==> ReplyIn(config, history, i) == Err(LoadFailed)
  {
    assert history[..i + 1][..i] == history[..i];
    forall k | FirstLoad(history, k) && k <= i
      ensures ReplyIn(config, history, i) == Answer(history[k].load.value, config, history[i].request)
    {
      FirstSuccessfulLoadStays(history[..i + 1], k);
    }
    if forall k :: 0 <= k <= i ==> history[k].load.Err? {
      NoLoadSucceeded(history[..i + 1]);
    }
  }

  /** Two backends that loaded the same model answer a request alike, whatever each served before. */
  lemma ReplyForgetsHistory(config: Config, a: seq<Arrival>, b: seq<Arrival>, i: nat, j: nat)
    requires FirstLoad(a, i) && FirstLoad(b, j) && a[i].load.value == b[j].load.value
    requires a[|a| - 1].request == b[|b| - 1].request
    ensures ReplyIn(config, a, |a| - 1) == ReplyIn(config, b, |b| - 1)
  {
    RepliesForgetHistory(config, a, |a| - 1);
    RepliesForgetHistory(config, b, |b| - 1);
  }
}
