/** The hooks that run before a request is sent upstream, and the compensators that run when one
    of them stops it. Hooks and compensators are arbitrary: they may fail, time out or panic, and
    edit the request context as they like. */
module Dispatch {
  import opened Wrappers

  datatype Response = Response(status: nat, code: string, message: string)
  datatype Format = Generic | OpenAi | Anthropic
  datatype Policy = Continue | FailClosed(response: Response)

  /** How an awaited call ends. */
  datatype Outcome = Finished | Errored | TimedOut | Panicked

  datatype Kind = Error | Timeout | Panic | Explicit
  datatype Cause = Cause(hook: string, kind: Kind)

  /** An exit body: one of the error envelopes, or whatever a hook wrote. */
  datatype Body =
    | GenericError(code: string, message: string)
    | OpenAiError(message: string, errorType: string, code: string)
    | AnthropicError(code: string, message: string, requestId: string)
    | Custom(text: string)

  /** The part of the request context hooks and compensators share with the proxy. */
  datatype Context = Context(
    shortCircuited: bool, forbidden: bool,
    exitStatus: Option<nat>, exitBody: Option<Body>, exitHeaders: Option<map<string, string>>,
    format: Option<Format>, requestId: string, shared: map<string, string>)

  datatype Hook = Hook(name: string, domain: string, policy: Policy, act: Context -> (Outcome, Context))
  datatype Handler = Handler(name: string, domain: string, act: (Context, Cause) -> (Outcome, Context))

  /** What was called, and on which context. */
  datatype Call = HookCall(hook: Hook, before: Context) | HandlerCall(handler: Handler, before: Context, cause: Cause)

  const DEFAULT_RESPONSE := Response(503, "upstream_dispatch_forbidden", "Upstream dispatch unavailable")

  // ---------------------------------------------------------------- the hooks' run

  predicate FailsClosed(h: Hook, before: Context) {
    h.policy.FailClosed? && h.act(before).0 != Finished
  }

  /** The hook stops the request: it fails closed, or leaves it short-circuited or forbidden. */
  predicate Stops(h: Hook, before: Context) {
    FailsClosed(h, before) || h.act(before).1.shortCircuited || h.act(before).1.forbidden
  }

  function AfterHook(h: Hook, before: Context): Context {
    if Stops(h, before) then h.act(before).1.(forbidden := true) else h.act(before).1
  }

  /** The context the first n hooks leave. */
  function AfterHooks(hooks: seq<Hook>, start: Context, n: nat): Context
    requires n <= |hooks|
  {
    if n == 0 then start else AfterHook(hooks[n - 1], AfterHooks(hooks, start, n - 1))
  }

  predicate StopsAt(hooks: seq<Hook>, start: Context, i: nat)
    requires i < |hooks|
  {
    Stops(hooks[i], AfterHooks(hooks, start, i))
  }

  ghost predicate NoneStops(hooks: seq<Hook>, start: Context) {
    forall i :: 0 <= i < |hooks| ==> !StopsAt(hooks, start, i)
  }

  ghost predicate FirstStop(hooks: seq<Hook>, start: Context, k: nat) {
    k < |hooks| && StopsAt(hooks, start, k) && forall i :: 0 <= i < k ==> !StopsAt(hooks, start, i)
  }

  function KindOf(o: Outcome): Kind {
    match o
    case Errored => Error
    case TimedOut => Timeout
    case Panicked => Panic
    case Finished => Explicit
  }

  function CauseAt(hooks: seq<Hook>, start: Context, k: nat): Cause
    requires k < |hooks|
  {
    var before := AfterHooks(hooks, start, k);
    Cause(hooks[k].name, if FailsClosed(hooks[k], before) then KindOf(hooks[k].act(before).0) else Explicit)
  }

  function ResponseOf(p: Policy): Response {
    if p.FailClosed? then p.response else DEFAULT_RESPONSE
  }

  function HookCalls(hooks: seq<Hook>, start: Context, n: nat): (r: seq<Call>)
    requires n <= |hooks|
    ensures |r| == n
  {
    if n == 0 then [] else HookCalls(hooks, start, n - 1) + [HookCall(hooks[n - 1], AfterHooks(hooks, start, n - 1))]
  }

  // ---------------------------------------------------------------- the compensators' run

  function AfterHandlers(handlers: seq<Handler>, cause: Cause, start: Context, n: nat): Context
    requires n <= |handlers|
  {
    if n == 0 then start else handlers[n - 1].act(AfterHandlers(handlers, cause, start, n - 1), cause).1
  }

  function HandlerCalls(handlers: seq<Handler>, cause: Cause, start: Context, n: nat): (r: seq<Call>)
    requires n <= |handlers|
    ensures |r| == n
  {
    if n == 0 then []
    else HandlerCalls(handlers, cause, start, n - 1)
         + [HandlerCall(handlers[n - 1], AfterHandlers(handlers, cause, start, n - 1), cause)]
  }

  function ErrorType(status: nat): string {
    if status == 401 then "invalid_request_error"
    else if status == 403 then "insufficient_quota"
    else if status == 429 then "rate_limit_error"
    else if 500 <= status <= 599 then "server_error"
    else "gateway_error"
  }

  function FailureBody(c: Context, r: Response): Body {
    match (if c.format.Some? then c.format.value else Generic)
    case Generic => GenericError(r.code, r.message)
    case OpenAi => OpenAiError(r.message, ErrorType(r.status), r.code)
    case Anthropic => AnthropicError(r.code, r.message, c.requestId)
  }

  /** Whatever the envelope, it tells two failures apart by code and message; OpenAI clients also see
      the class of the status, and only Anthropic clients the request id. */
  lemma EnvelopeIdentifiesFailure(c: Context, r1: Response, r2: Response)
    ensures FailureBody(c, r1) == FailureBody(c, r2) <==>
              && r1.code == r2.code && r1.message == r2.message
              && (c.format == Some(OpenAi) ==> ErrorType(r1.status) == ErrorType(r2.status))
    ensures forall id :: FailureBody(c.(requestId := id), r1) == FailureBody(c, r1) <==>
              c.format == Some(Anthropic) ==> id == c.requestId
    ensures ErrorType(r1.status) == "server_error" <==> 500 <= r1.status <= 599
  {
  }

  /** The context handed to the first compensator: forbidden, with the root failure written. */
  function Frozen(c: Context, r: Response): Context {
    if c.shortCircuited then c.(forbidden := true)
    else c.(forbidden := true, shortCircuited := true, exitStatus := Some(r.status), exitBody := Some(FailureBody(c, r)))
  }

  /** Whatever the compensators did to the response, the frozen one is put back. */
  function Restored(c: Context, root: Context): Context {
    c.(shortCircuited := true, exitStatus := root.exitStatus, exitBody := root.exitBody, exitHeaders := root.exitHeaders)
  }

  // ---------------------------------------------------------------- assembly

  predicate HasCompensator(handlers: seq<Handler>, domain: string) {
    exists j :: 0 <= j < |handlers| && handlers[j].domain == domain
  }

  /** Every fail-closed hook has a compensator of its own domain. */
  ghost predicate Assembled(hooks: seq<Hook>, handlers: seq<Handler>) {
    forall i :: 0 <= i < |hooks| && hooks[i].policy.FailClosed? ==>
      exists j :: 0 <= j < |handlers| && handlers[j].domain == hooks[i].domain
  }

  /** The request context, updated in place. The ghost log records the calls made with it. */
  class RequestCtx {
    var shortCircuited: bool
    var forbidden: bool
    var exitStatus: Option<nat>
    var exitBody: Option<Body>
    var exitHeaders: Option<map<string, string>>
    var format: Option<Format>
    var requestId: string
    var shared: map<string, string>
    ghost var calls: seq<Call>

    constructor (requestId: string)
      ensures View() == Context(false, false, None, None, None, None, requestId, map[]) && calls == []
    {
      shortCircuited, forbidden, exitStatus, exitBody, exitHeaders := false, false, None, None, None;
      format, shared, calls := None, map[], [];
      this.requestId := requestId;
    }

    function View(): Context
      reads this
    {
      Context(shortCircuited, forbidden, exitStatus, exitBody, exitHeaders, format, requestId, shared)
    }

    method Become(c: Context)
      modifies this
      ensures View() == c && calls == old(calls)
    {
      shortCircuited, forbidden, format := c.shortCircuited, c.forbidden, c.format;
      exitStatus, exitBody, exitHeaders := c.exitStatus, c.exitBody, c.exitHeaders;
      requestId, shared := c.requestId, c.shared;
    }

    method CallHook(h: Hook) returns (o: Outcome)
      modifies this
      ensures (o, View()) == h.act(old(View())) && calls == old(calls) + [HookCall(h, old(View()))]
    {
      calls := calls + [HookCall(h, View())];
      var result := h.act(View());
      Become(result.1);
      o := result.0;
    }

    method CallHandler(h: Handler, cause: Cause)
      modifies this
      ensures View() == h.act(old(View()), cause).1 && calls == old(calls) + [HandlerCall(h, old(View()), cause)]
    {
      calls := calls + [HandlerCall(h, View(), cause)];
      Become(h.act(View(), cause).1);
    }

    method SetDispatchFailureResponse(r: Response)
      modifies this
      ensures View() == old(View()).(shortCircuited := true, exitStatus := Some(r.status),
                                     exitBody := Some(FailureBody(old(View()), r)))
      ensures calls == old(calls)
    {
      exitBody := Some(FailureBody(View(), r));
      shortCircuited, exitStatus := true, Some(r.status);
    }
  }

  /** What one run of the protocol did: which hooks and then which compensators it called, the
      context it left, and whether the request may go upstream. */
  datatype Run = Run(hooked: seq<Call>, compensated: seq<Call>, end: Context, allowed: bool)

  function RootAt(hooks: seq<Hook>, start: Context, k: nat): Context
    requires k < |hooks|
  {
    Frozen(AfterHooks(hooks, start, |hooks|), ResponseOf(hooks[k].policy))
  }

  ghost predicate RunOf(hooks: seq<Hook>, handlers: seq<Handler>, start: Context, run: Run) {
    && run.hooked == HookCalls(hooks, start, |hooks|)
    && if NoneStops(hooks, start) then
         && run.compensated == [] && run.end == AfterHooks(hooks, start, |hooks|)
         && run.allowed == !run.end.forbidden
       else
         exists k: nat :: AbortedRun(hooks, handlers, start, run, k)
  }

  ghost predicate AbortedRun(hooks: seq<Hook>, handlers: seq<Handler>, start: Context, run: Run, k: nat) {
    && FirstStop(hooks, start, k) && !run.allowed
    && var cause, root := CauseAt(hooks, start, k), RootAt(hooks, start, k);
       && run.compensated == HandlerCalls(handlers, cause, root, |handlers|)
       && run.end == Restored(AfterHandlers(handlers, cause, root, |handlers|), root)
  }

  class Proxy {
    var hooks: seq<Hook>
    var handlers: seq<Handler>

    ghost predicate Valid()
      reads this
    {
      Assembled(hooks, handlers)
    }

    constructor ()
      ensures Valid() && hooks == [] && handlers == []
    {
      hooks, handlers := [], [];
    }

    /** Refuses an assembly in which a fail-closed hook has no compensator of its domain. */
    method TryWithAsyncLifecycleHooks(hooks: seq<Hook>, handlers: seq<Handler>) returns (ok: bool)
      requires Valid()
      modifies this
      ensures Valid() && (ok <==> Assembled(hooks, handlers))
      ensures if ok then this.hooks == hooks && this.handlers == handlers
              else this.hooks == old(this.hooks) && this.handlers == old(this.handlers)
    {
      for i := 0 to |hooks|
        invariant forall j :: 0 <= j < i && hooks[j].policy.FailClosed? ==> HasCompensator(handlers, hooks[j].domain)
      {
        if hooks[i].policy.FailClosed? && !HasCompensator(handlers, hooks[i].domain) {
          return false;
        }
      }
      this.hooks, this.handlers := hooks, handlers;
      return true;
    }

    method RunDispatchHooks(ctx: RequestCtx) returns (allowed: bool, ghost run: Run)
      modifies ctx
      ensures ctx.calls == old(ctx.calls) + run.hooked + run.compensated
      ensures run.end == ctx.View() && run.allowed == allowed
      ensures RunOf(hooks, handlers, old(ctx.View()), run)
    {
      ghost var start := ctx.View();
      var abort;
      ghost var first;
      abort, first := RunHooks(ctx);
      ghost var hooked := HookCalls(hooks, start, |hooks|);
      if abort.None? {
        allowed := !ctx.forbidden;
        run := Run(hooked, [], ctx.View(), allowed);
        return;
      }
      allowed := RunCompensators(ctx, abort.value.0, abort.value.1);
      run := Run(hooked, HandlerCalls(handlers, abort.value.0, RootAt(hooks, start, first), |handlers|), ctx.View(), allowed);
      assert AbortedRun(hooks, handlers, start, run, first);
    }

    /** Runs every hook, remembering the first that stops the request. */
    method RunHooks(ctx: RequestCtx) returns (abort: Option<(Cause, Response)>, ghost first: nat)
      modifies ctx
      ensures ctx.View() == AfterHooks(hooks, old(ctx.View()), |hooks|)
      ensures ctx.calls == old(ctx.calls) + HookCalls(hooks, old(ctx.View()), |hooks|)
      ensures abort.None? ==> NoneStops(hooks, old(ctx.View()))
      ensures abort.Some? ==> FirstStop(hooks, old(ctx.View()), first)
      ensures abort.Some? ==> abort.value == (CauseAt(hooks, old(ctx.View()), first), ResponseOf(hooks[first].policy))
    {
      ghost var start := ctx.View();
      abort, first := None, 0;
      for i := 0 to |hooks|
        invariant ctx.View() == AfterHooks(hooks, start, i)
        invariant ctx.calls == old(ctx.calls) + HookCalls(hooks, start, i)
        invariant abort.None? ==> forall j :: 0 <= j < i ==> !StopsAt(hooks, start, j)
        invariant abort.Some? ==> first < i && FirstStop(hooks, start, first)
        invariant abort.Some? ==> abort.value == (CauseAt(hooks, start, first), ResponseOf(hooks[first].policy))
      {
        var hook := hooks[i];
        var outcome := ctx.CallHook(hook);
        if outcome != Finished && hook.policy.FailClosed? {
          ctx.forbidden := true;
          if abort.None? {
            abort, first := Some((Cause(hook.name, KindOf(outcome)), hook.policy.response)), i;
          }
        }
        if ctx.shortCircuited || ctx.forbidden {
          ctx.forbidden := true;
          if abort.None? {
            abort, first := Some((Cause(hook.name, Explicit), ResponseOf(hook.policy))), i;
          }
        }
      }
    }

    method RunCompensators(ctx: RequestCtx, cause: Cause, response: Response) returns (allowed: bool)
      modifies ctx
      ensures !allowed
      ensures var root := Frozen(old(ctx.View()), response);
              && ctx.calls == old(ctx.calls) + HandlerCalls(handlers, cause, root, |handlers|)
              && ctx.View() == Restored(AfterHandlers(handlers, cause, root, |handlers|), root)
    {
      ghost var root := Frozen(ctx.View(), response);
      ctx.forbidden := true;
      if !ctx.shortCircuited {
        ctx.SetDispatchFailureResponse(response);
      }
      var status, body, headers := ctx.exitStatus, ctx.exitBody, ctx.exitHeaders;
      for j := 0 to |handlers|
        invariant ctx.View() == AfterHandlers(handlers, cause, root, j)
        invariant ctx.calls == old(ctx.calls) + HandlerCalls(handlers, cause, root, j)
      {
        ctx.CallHandler(handlers[j], cause);
      }
      ctx.shortCircuited, ctx.exitStatus, ctx.exitBody, ctx.exitHeaders := true, status, body, headers;
      return false;
    }
  }

  // ---------------------------------------------------------------- what every run guarantees

  lemma {:induction false} HookCallsAre(hooks: seq<Hook>, start: Context, n: nat, i: nat)
    requires i < n <= |hooks|
    ensures HookCalls(hooks, start, n)[i] == HookCall(hooks[i], AfterHooks(hooks, start, i))
  {
    if i < n - 1 {
      HookCallsAre(hooks, start, n - 1, i);
    }
  }

  lemma CallStops(hooks: seq<Hook>, start: Context, hooked: seq<Call>, i: nat)
    requires i < |hooks| && hooked == HookCalls(hooks, start, |hooks|)
    ensures hooked[i].HookCall? && hooked[i].hook == hooks[i]
    ensures Stops(hooks[i], hooked[i].before) <==> StopsAt(hooks, start, i)
  {
    HookCallsAre(hooks, start, |hooks|, i);
  }

  lemma {:induction false} HandlerCallsAre(handlers: seq<Handler>, cause: Cause, start: Context, n: nat, j: nat)
    requires j < n <= |handlers|
    ensures HandlerCalls(handlers, cause, start, n)[j] == HandlerCall(handlers[j], AfterHandlers(handlers, cause, start, j), cause)
  {
    if j < n - 1 {
      HandlerCallsAre(handlers, cause, start, n - 1, j);
    }
  }

  /** Every hook runs, once and in order, whatever the others do; and the request goes upstream
      exactly when none stopped it, with the context then neither forbidden nor short-circuited. */
  lemma AllowedExactlyWhenNoneStops(hooks: seq<Hook>, handlers: seq<Handler>, start: Context, run: Run)
    requires RunOf(hooks, handlers, start, run) && !start.forbidden && !start.shortCircuited
    ensures |run.hooked| == |hooks|
    ensures forall i :: 0 <= i < |hooks| ==> run.hooked[i].HookCall? && run.hooked[i].hook == hooks[i]
    ensures run.allowed <==> forall i :: 0 <= i < |hooks| ==> !Stops(hooks[i], run.hooked[i].before)
    ensures run.allowed ==> !run.end.forbidden && !run.end.shortCircuited && run.compensated == []
  {
    forall i | 0 <= i < |hooks|
      ensures run.hooked[i].HookCall? && run.hooked[i].hook == hooks[i]
      ensures Stops(hooks[i], run.hooked[i].before) <==> StopsAt(hooks, start, i)
    {
      CallStops(hooks, start, run.hooked, i);
    }
    if NoneStops(hooks, start) {
      assert hooks != [] ==> !StopsAt(hooks, start, |hooks| - 1);
    } else {
      var k: nat :| AbortedRun(hooks, handlers, start, run, k);
      assert Stops(hooks[k], run.hooked[k].before);
    }
  }

  /** Without hooks the flag decides alone: a context already short-circuited is let through. */
  lemma NoHooksAllowsShortCircuited(handlers: seq<Handler>, start: Context, run: Run)
    requires RunOf([], handlers, start, run)
    ensures run.allowed == !start.forbidden && run.end == start
  {
  }

  /** The cause names the earliest hook that stopped the request, and says how: its failure if
      it fails closed, and Explicit otherwise. */
  ghost predicate Blames(hooks: seq<Hook>, hooked: seq<Call>, k: nat, cause: Cause)
    requires |hooks| == |hooked| && forall i :: 0 <= i < |hooks| ==> hooked[i].HookCall?
  {
    && k < |hooks| && Stops(hooks[k], hooked[k].before)
    && (forall i :: 0 <= i < k ==> !Stops(hooks[i], hooked[i].before))
    && cause.hook == hooks[k].name
    && (FailsClosed(hooks[k], hooked[k].before) ==>
          match hooks[k].act(hooked[k].before).0
          case Finished => false
          case Errored => cause.kind == Error
          case TimedOut => cause.kind == Timeout
          case Panicked => cause.kind == Panic)
    && (!FailsClosed(hooks[k], hooked[k].before) ==> cause.kind == Explicit)
  }

  /** The client is told what c already says if c is short-circuited, and r otherwise. */
  ghost predicate Answers(c: Context, r: Response, end: Context) {
    && end.exitHeaders == c.exitHeaders
    && (c.shortCircuited ==> end.exitStatus == c.exitStatus && end.exitBody == c.exitBody)
    && (!c.shortCircuited ==> end.exitStatus == Some(r.status) && end.exitBody.Some? && Reports(c, r, end.exitBody.value))
  }

  /** The body carries the response's code and message in the envelope of the request's format. */
  ghost predicate Reports(c: Context, r: Response, body: Body) {
    match c.format
    case Some(OpenAi) => body.OpenAiError? && body.code == r.code && body.message == r.message && Classifies(r.status, body.errorType)
    case Some(Anthropic) => body.AnthropicError? && body.code == r.code && body.message == r.message && body.requestId == c.requestId
    case _ => body.GenericError? && body.code == r.code && body.message == r.message
  }

  /** The error type an OpenAI client sees for a status. */
  ghost predicate Classifies(status: nat, errorType: string) {
    && (status == 401 ==> errorType == "invalid_request_error")
    && (status == 403 ==> errorType == "insufficient_quota")
    && (status == 429 ==> errorType == "rate_limit_error")
    && (status in {401, 403, 429} || (errorType == "server_error" <==> 500 <= status < 600))
    && (status in {401, 403, 429} || 500 <= status < 600 || errorType == "gateway_error")
  }

  /** The response for a request that a hook stops: a fail-closed hook's own, else the default. */
  ghost predicate RespondsWith(p: Policy, r: Response) {
    match p
    case FailClosed(own) => r == own
    case Continue => r.status == 503 && r.code == "upstream_dispatch_forbidden" && r.message == "Upstream dispatch unavailable"
  }

  lemma FrozenAnswers(c: Context, r: Response)
    ensures Answers(c, r, Frozen(c, r)) && Frozen(c, r).forbidden && Frozen(c, r).shortCircuited
  {
  }

  ghost predicate Compensates(h: Handler, call: Call, cause: Cause) {
    call.HandlerCall? && call.handler == h && call.cause == cause
  }

  lemma FirstStopIsBlamed(hooks: seq<Hook>, start: Context, k: nat, hooked: seq<Call>)
    requires FirstStop(hooks, start, k) && hooked == HookCalls(hooks, start, |hooks|)
    ensures forall i :: 0 <= i < |hooks| ==> hooked[i].HookCall?
    ensures Blames(hooks, hooked, k, CauseAt(hooks, start, k))
  {
    forall i | 0 <= i < |hooks|
      ensures hooked[i].HookCall? && (Stops(hooks[i], hooked[i].before) <==> StopsAt(hooks, start, i))
    {
      CallStops(hooks, start, hooked, i);
    }
    HookCallsAre(hooks, start, |hooks|, k);
  }

  /** A stopped request: after all hooks, every compensator runs, once and in order, given a cause
      that blames the earliest stopping hook. If that hook's policy is to fail closed, one of them
      is of its domain. The first finds the request forbidden. The client is told what was fixed
      before they ran: the response in place if a hook short-circuited, and otherwise the failure
      response of the blamed hook. */
  lemma AbortIsCompensated(hooks: seq<Hook>, handlers: seq<Handler>, start: Context, run: Run) returns (k: nat, cause: Cause)
    requires Assembled(hooks, handlers) && RunOf(hooks, handlers, start, run) && !NoneStops(hooks, start)
    ensures !run.allowed && run.end.shortCircuited
    ensures |run.hooked| == |hooks| && forall i :: 0 <= i < |hooks| ==> run.hooked[i].HookCall?
    ensures Blames(hooks, run.hooked, k, cause)
    ensures |run.compensated| == |handlers|
    ensures forall j :: 0 <= j < |handlers| ==> Compensates(handlers[j], run.compensated[j], cause)
    ensures hooks[k].policy.FailClosed? ==> exists j :: 0 <= j < |handlers| && handlers[j].domain == hooks[k].domain
    ensures handlers != [] ==> run.compensated[0].before.forbidden && run.compensated[0].before.shortCircuited
    ensures RespondsWith(hooks[k].policy, ResponseOf(hooks[k].policy))
    ensures Answers(AfterHooks(hooks, start, |hooks|), ResponseOf(hooks[k].policy), run.end)
  {
    k :| AbortedRun(hooks, handlers, start, run, k);
    cause := CauseAt(hooks, start, k);
    var root := RootAt(hooks, start, k);
    FirstStopIsBlamed(hooks, start, k, run.hooked);
    FrozenAnswers(AfterHooks(hooks, start, |hooks|), ResponseOf(hooks[k].policy));
    forall j | 0 <= j < |handlers|
      ensures run.compensated[j] == HandlerCall(handlers[j], AfterHandlers(handlers, cause, root, j), cause)
    {
      HandlerCallsAre(handlers, cause, root, |handlers|, j);
    }
  }

  /** Noninterference: what the client is told does not depend on the compensators at all. */
  lemma CompensatorsCannotRewrite(hooks: seq<Hook>, start: Context, h1: seq<Handler>, run1: Run, h2: seq<Handler>, run2: Run)
    requires RunOf(hooks, h1, start, run1) && RunOf(hooks, h2, start, run2)
    ensures run1.allowed == run2.allowed && run1.end.shortCircuited == run2.end.shortCircuited
    ensures run1.end.exitStatus == run2.end.exitStatus && run1.end.exitBody == run2.end.exitBody
    ensures run1.end.exitHeaders == run2.end.exitHeaders
  {
    if !NoneStops(hooks, start) {
      var k1: nat :| AbortedRun(hooks, h1, start, run1, k1);
      var k2: nat :| AbortedRun(hooks, h2, start, run2, k2);
      assert StopsAt(hooks, start, k1) && StopsAt(hooks, start, k2);
      assert k1 == k2;
    }
  }

  // ---------------------------------------------------------------- the forbidden flag

  /** The call left the flag set on the context it was given. */
  ghost predicate LeavesForbidden(call: Call) {
    call.HandlerCall? && call.handler.act(call.before, call.cause).1.forbidden
  }

  /** From the root failure on: dispatch is forbidden at every compensator's call and when all is over. */
  ghost predicate ForbiddenThroughout(run: Run) {
    run.end.forbidden && forall j :: 0 <= j < |run.compensated| ==> run.compensated[j].before.forbidden
  }

  lemma CompensatedAre(handlers: seq<Handler>, cause: Cause, root: Context, calls: seq<Call>)
    requires calls == HandlerCalls(handlers, cause, root, |handlers|)
    ensures forall j :: 0 <= j < |handlers| ==> calls[j] == HandlerCall(handlers[j], AfterHandlers(handlers, cause, root, j), cause)
    ensures forall j :: 0 <= j < |handlers| ==> (LeavesForbidden(calls[j]) <==> AfterHandlers(handlers, cause, root, j + 1).forbidden)
  {
    forall j | 0 <= j < |handlers|
      ensures calls[j] == HandlerCall(handlers[j], AfterHandlers(handlers, cause, root, j), cause)
    {
      HandlerCallsAre(handlers, cause, root, |handlers|, j);
    }
  }

  /** In a stopped request the flag stays set throughout exactly when every compensator that was
      called left it set on the context it was given. */
  lemma ForbiddenThroughoutExactlyWhen(hooks: seq<Hook>, handlers: seq<Handler>, start: Context, run: Run)
    requires RunOf(hooks, handlers, start, run) && !NoneStops(hooks, start)
    ensures ForbiddenThroughout(run) <==> forall j :: 0 <= j < |run.compensated| ==> LeavesForbidden(run.compensated[j])
  {
    var k: nat :| AbortedRun(hooks, handlers, start, run, k);
    var cause, root := CauseAt(hooks, start, k), RootAt(hooks, start, k);
    CompensatedAre(handlers, cause, root, run.compensated);
    var n := |handlers|;
    var flags := seq(n + 1, j requires 0 <= j < n + 1 => AfterHandlers(handlers, cause, root, j).forbidden);
    FlagPassesOn(flags, flags[1..], n);
  }

  lemma FlagPassesOn(before: seq<bool>, after: seq<bool>, n: nat)
    requires |before| == n + 1 && before[0] && after == before[1..]
    ensures (before[n] && forall j :: 0 <= j < n ==> before[j]) <==> forall j :: 0 <= j < n ==> after[j]
  {
    if forall j :: 0 <= j < n ==> after[j] {
      forall j | 0 <= j <= n
        ensures before[j]
      {
        assert j > 0 ==> after[j - 1];
      }
    }
    assert forall j :: 0 <= j < n ==> after[j] == before[j + 1];
  }

  /** Started on any context with the root failure written, the compensators pass the flag on: each
      leaves it set on what the ones before it can leave. */
  ghost predicate PassFlagOn(handlers: seq<Handler>) {
    forall cause: Cause, root: Context, j: nat ::
      root.forbidden && root.shortCircuited && j < |handlers| ==> KeepsFlagAt(handlers, cause, root, j)
  }

  ghost predicate KeepsFlagAt(handlers: seq<Handler>, cause: Cause, root: Context, j: nat)
    requires j < |handlers|
  {
    handlers[j].act(AfterHandlers(handlers, cause, root, j), cause).1.forbidden
  }

  ghost predicate Stopped(hooks: seq<Hook>, handlers: seq<Handler>, start: Context, run: Run) {
    Assembled(hooks, handlers) && RunOf(hooks, handlers, start, run) && !NoneStops(hooks, start)
  }

  /** From the root failure on, the flag stays set in every stopped request, whatever the hooks, exactly
      when the compensators pass it on. */
  lemma CompensatorsKeepFlagExactlyWhen(handlers: seq<Handler>)
    ensures (forall hooks, start, run :: Stopped(hooks, handlers, start, run) ==> ForbiddenThroughout(run)) <==> PassFlagOn(handlers)
  {
    if PassFlagOn(handlers) {
      forall hooks, start, run | Stopped(hooks, handlers, start, run)
        ensures ForbiddenThroughout(run)
      {
        PassedOn(hooks, handlers, start, run);
      }
    }
    if forall hooks, start, run :: Stopped(hooks, handlers, start, run) ==> ForbiddenThroughout(run) {
      forall cause: Cause, root: Context, j: nat | root.forbidden && root.shortCircuited && j < |handlers|
        ensures KeepsFlagAt(handlers, cause, root, j)
      {
        var hooks, start, run := StoppedBy(handlers, cause, root);
        ForbiddenThroughoutExactlyWhen(hooks, handlers, start, run);
        CompensatedAre(handlers, cause, root, run.compensated);
        assert LeavesForbidden(run.compensated[j]);
      }
    }
  }

  lemma PassedOn(hooks: seq<Hook>, handlers: seq<Handler>, start: Context, run: Run)
    requires PassFlagOn(handlers) && RunOf(hooks, handlers, start, run) && !NoneStops(hooks, start)
    ensures ForbiddenThroughout(run)
  {
    var k: nat :| AbortedRun(hooks, handlers, start, run, k);
    var cause, root := CauseAt(hooks, start, k), RootAt(hooks, start, k);
    CompensatedAre(handlers, cause, root, run.compensated);
    forall j | 0 <= j < |handlers|
      ensures LeavesForbidden(run.compensated[j])
    {
      assert KeepsFlagAt(handlers, cause, root, j);
    }
    ForbiddenThroughoutExactlyWhen(hooks, handlers, start, run);
  }

  /** Every cause and every frozen root arise: one hook can bring them about. */
  lemma StoppedBy(handlers: seq<Handler>, cause: Cause, root: Context) returns (hooks: seq<Hook>, start: Context, run: Run)
    requires root.forbidden && root.shortCircuited && handlers != []
    ensures Stopped(hooks, handlers, start, run) && run.compensated == HandlerCalls(handlers, cause, root, |handlers|)
  {
    var outcome := match cause.kind case Error => Errored case Timeout => TimedOut case Panic => Panicked case Explicit => Finished;
    start := root;
    hooks := [Hook(cause.hook, handlers[0].domain, FailClosed(DEFAULT_RESPONSE), (c: Context) => (outcome, root))];
    assert AfterHooks(hooks, start, 0) == start;
    assert StopsAt(hooks, start, 0);
    assert AfterHooks(hooks, start, 1) == root;
    assert CauseAt(hooks, start, 0) == cause && RootAt(hooks, start, 0) == root;
    var end := Restored(AfterHandlers(handlers, cause, root, |handlers|), root);
    run := Run(HookCalls(hooks, start, 1), HandlerCalls(handlers, cause, root, |handlers|), end, false);
    assert AbortedRun(hooks, handlers, start, run, 0);
    assert HasCompensator(handlers, handlers[0].domain);
  }

  // The hooks called after the first stop can clear the flag as well.

  /** Once the hook at k has stopped the request, the flag is set at every later hook's call, at every
      compensator's call and when all is over. */
  ghost predicate NeverCleared(hooks: seq<Hook>, run: Run, k: nat)
    requires |run.hooked| == |hooks|
  {
    (forall i :: k < i < |hooks| ==> run.hooked[i].before.forbidden) && ForbiddenThroughout(run)
  }

  lemma HookPassesOn(hooks: seq<Hook>, start: Context, i: nat, next: nat)
    requires i < |hooks| && next == i + 1
    ensures AfterHooks(hooks, start, next).forbidden <==> StopsAt(hooks, start, i)
  {
  }

  lemma LaterHooksForbidden(hooks: seq<Hook>, start: Context, k: nat, hooked: seq<Call>)
    requires FirstStop(hooks, start, k) && hooked == HookCalls(hooks, start, |hooks|)
    ensures (forall i :: k < i < |hooks| ==> hooked[i].before.forbidden)
            <==> forall i :: k < i < |hooks| - 1 ==> Stops(hooks[i], hooked[i].before)
  {
    forall i | 0 <= i < |hooks|
      ensures hooked[i].before == AfterHooks(hooks, start, i)
      ensures Stops(hooks[i], hooked[i].before) <==> StopsAt(hooks, start, i)
    {
      HookCallsAre(hooks, start, |hooks|, i);
    }
    forall i | k < i < |hooks|
      ensures hooked[i].before.forbidden <==> Stops(hooks[i - 1], hooked[i - 1].before)
    {
      HookPassesOn(hooks, start, i - 1, i);
    }
    if forall i :: k < i < |hooks| ==> hooked[i].before.forbidden {
      forall i | k < i < |hooks| - 1
        ensures Stops(hooks[i], hooked[i].before)
      {
        assert hooked[i + 1].before.forbidden;
      }
    }
  }

  /** After the first stop the flag is never cleared exactly when every later hook but the last stops
      the request too, and every compensator that was called left the flag set. */
  lemma NeverClearedExactlyWhen(hooks: seq<Hook>, handlers: seq<Handler>, start: Context, run: Run, k: nat)
    requires RunOf(hooks, handlers, start, run) && FirstStop(hooks, start, k)
    ensures |run.hooked| == |hooks|
    ensures NeverCleared(hooks, run, k) <==>
              && (forall i :: k < i < |hooks| - 1 ==> Stops(hooks[i], run.hooked[i].before))
              && forall j :: 0 <= j < |run.compensated| ==> LeavesForbidden(run.compensated[j])
  {
    assert !NoneStops(hooks, start) by {
      assert StopsAt(hooks, start, k);
    }
    LaterHooksForbidden(hooks, start, k, run.hooked);
    ForbiddenThroughoutExactlyWhen(hooks, handlers, start, run);
  }

  /** Wherever a request is first stopped, the later hooks but the last and all compensators pass the
      flag on. */
  ghost predicate AllPassOn(hooks: seq<Hook>, handlers: seq<Handler>) {
    forall start: Context, k: nat :: FirstStop(hooks, start, k) ==> PassesOnFrom(hooks, handlers, start, k)
  }

  ghost predicate PassesOnFrom(hooks: seq<Hook>, handlers: seq<Handler>, start: Context, k: nat)
    requires k < |hooks|
  {
    && (forall i :: k < i < |hooks| - 1 ==> StopsAt(hooks, start, i))
    && forall j :: 0 <= j < |handlers| ==> KeepsFlagAt(handlers, CauseAt(hooks, start, k), RootAt(hooks, start, k), j)
  }

  lemma PassesOnExactlyWhen(hooks: seq<Hook>, handlers: seq<Handler>, start: Context, run: Run, k: nat)
    requires RunOf(hooks, handlers, start, run) && AbortedRun(hooks, handlers, start, run, k)
    ensures |run.hooked| == |hooks| && (NeverCleared(hooks, run, k) <==> PassesOnFrom(hooks, handlers, start, k))
  {
    NeverClearedExactlyWhen(hooks, handlers, start, run, k);
    CompensatedAre(handlers, CauseAt(hooks, start, k), RootAt(hooks, start, k), run.compensated);
    forall i | 0 <= i < |hooks|
      ensures Stops(hooks[i], run.hooked[i].before) <==> StopsAt(hooks, start, i)
    {
      HookCallsAre(hooks, start, |hooks|, i);
    }
    forall j | 0 <= j < |handlers|
      ensures LeavesForbidden(run.compensated[j]) <==> KeepsFlagAt(handlers, CauseAt(hooks, start, k), RootAt(hooks, start, k), j)
    {
    }
  }

  /** The one run of an assembly from a context in which some hook stops the request. */
  lemma RunFrom(hooks: seq<Hook>, handlers: seq<Handler>, start: Context, k: nat) returns (run: Run)
    requires FirstStop(hooks, start, k)
    ensures RunOf(hooks, handlers, start, run) && AbortedRun(hooks, handlers, start, run, k)
  {
    var cause, root := CauseAt(hooks, start, k), RootAt(hooks, start, k);
    run := Run(HookCalls(hooks, start, |hooks|), HandlerCalls(handlers, cause, root, |handlers|),
               Restored(AfterHandlers(handlers, cause, root, |handlers|), root), false);
    assert StopsAt(hooks, start, k);
    assert AbortedRun(hooks, handlers, start, run, k);
  }

  lemma StopIsUnique(hooks: seq<Hook>, handlers: seq<Handler>, start: Context, run: Run, k: nat)
    requires RunOf(hooks, handlers, start, run) && FirstStop(hooks, start, k)
    ensures AbortedRun(hooks, handlers, start, run, k)
  {
    assert StopsAt(hooks, start, k);
    var l: nat :| AbortedRun(hooks, handlers, start, run, l);
    assert StopsAt(hooks, start, l);
    assert k == l;
  }

  /** The documented irreversibility of an assembly: in every request it stops, the flag is never
      cleared after the first stop, exactly when hooks and compensators alike pass it on. */
  lemma IrreversibleExactlyWhen(hooks: seq<Hook>, handlers: seq<Handler>)
    ensures (forall start, run, k: nat :: RunOf(hooks, handlers, start, run) && FirstStop(hooks, start, k) ==>
               |run.hooked| == |hooks| && NeverCleared(hooks, run, k))
            <==> AllPassOn(hooks, handlers)
  {
    if AllPassOn(hooks, handlers) {
      forall start, run, k: nat | RunOf(hooks, handlers, start, run) && FirstStop(hooks, start, k)
        ensures |run.hooked| == |hooks| && NeverCleared(hooks, run, k)
      {
        StopIsUnique(hooks, handlers, start, run, k);
        PassesOnExactlyWhen(hooks, handlers, start, run, k);
      }
    }
    if forall start, run, k: nat :: RunOf(hooks, handlers, start, run) && FirstStop(hooks, start, k) ==>
         |run.hooked| == |hooks| && NeverCleared(hooks, run, k)
    {
      forall start: Context, k: nat | FirstStop(hooks, start, k)
        ensures PassesOnFrom(hooks, handlers, start, k)
      {
        var run := RunFrom(hooks, handlers, start, k);
        PassesOnExactlyWhen(hooks, handlers, start, run, k);
      }
    }
  }

  /** A hook that clears the flag an earlier one set: a third is called with the flag unset, although
      the request is stopped and the compensators find the flag set again. */
  lemma LaterHookClearsFlag(handlers: seq<Handler>, start: Context) returns (hooks: seq<Hook>, run: Run)
    requires !start.shortCircuited && !start.forbidden && PassFlagOn(handlers)
    ensures |hooks| == 3 && Stopped(hooks, handlers, start, run) && FirstStop(hooks, start, 0)
    ensures |run.hooked| == 3 && run.hooked[1].before.forbidden && !run.hooked[2].before.forbidden
    ensures ForbiddenThroughout(run)
  {
    hooks := [Hook("forbids", "d", Continue, (c: Context) => (Finished, c.(forbidden := true))),
              Hook("clears", "d", Continue, (c: Context) => (Finished, c.(forbidden := false))),
              Hook("third", "d", Continue, (c: Context) => (Finished, c))];
    assert AfterHooks(hooks, start, 0) == start;
    assert AfterHooks(hooks, start, 1) == start.(forbidden := true);
    assert AfterHooks(hooks, start, 2) == start;
    assert StopsAt(hooks, start, 0);
    run := RunFrom(hooks, handlers, start, 0);
    HookCallsAre(hooks, start, 3, 1);
    HookCallsAre(hooks, start, 3, 2);
    PassedOn(hooks, handlers, start, run);
  }

  /** The flag is documented as irreversible, but it is a public field and a compensator can
      clear it: the request is still refused, yet its context ends not forbidden. */
  lemma FlagIsReversible(response: Response, start: Context) returns (hooks: seq<Hook>, handlers: seq<Handler>, run: Run)
    requires !start.shortCircuited && !start.forbidden
    ensures Assembled(hooks, handlers) && RunOf(hooks, handlers, start, run) && !NoneStops(hooks, start)
    ensures !run.allowed && !run.end.forbidden
  {
    hooks := [Hook("h", "d", FailClosed(response), (c: Context) => (Panicked, c))];
    handlers := [Handler("c", "d", (c: Context, cause: Cause) => (Finished, c.(forbidden := false)))];
    assert AfterHooks(hooks, start, 0) == start;
    assert StopsAt(hooks, start, 0);
    var cause, root := CauseAt(hooks, start, 0), RootAt(hooks, start, 0);
    assert AfterHandlers(handlers, cause, root, 0) == root;
    var end := Restored(AfterHandlers(handlers, cause, root, 1), root);
    run := Run(HookCalls(hooks, start, 1), HandlerCalls(handlers, cause, root, 1), end, false);
    assert AbortedRun(hooks, handlers, start, run, 0);
  }
}
