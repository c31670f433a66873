/** The life of one request in the service control filter
    (src/envoy/http/service_control/filter.cc and handler_impl.cc): headers
    arrive, the check and quota calls are made, and the request is let through
    or answered.  The check call may be answered from the client's cache at
    once, or go to the server as an `HttpCalls.Call` and be answered later, or
    at once for want of a token, or when the stream is destroyed. */
module ServiceControl {

  import opened Wrappers
  import opened HttpCalls

  /** The parts of the configuration and of the request that matter. */
  datatype Config = Config(
    configured: bool,
    allowWithoutApiKey: bool,
    skipServiceControl: bool,
    hasMetricCosts: bool,
    hasApiKey: bool,
    networkFailOpen: bool,
    checkRetries: nat)

  predicate IsCheckRequired(cfg: Config) {
    !cfg.allowWithoutApiKey && !cfg.skipServiceControl
  }

  predicate IsQuotaRequired(cfg: Config) {
    !cfg.skipServiceControl && cfg.hasMetricCosts
  }

  datatype FilterState = Init | Calling | Responded | Complete

  /** What can be seen from outside, in order. */
  datatype Effect =
    | CheckCalled
    | CheckAnswered(status: Status)
    | QuotaCalled
    | QuotaAnswered(status: Status)
    | HeadersContinued
    | DecodingContinued
    | LocalReply(code: Code)

  /** Filter and handler of one request, with the check call it has made. */
  datatype Request = Request(
    state: FilterState,
    stopped: bool,
    allowed: nat,
    denied: nat,
    checkStatus: Status,
    cancelFn: bool,
    onCheckDoneCalled: bool,
    call: Option<Call>,
    trace: seq<Effect>)

  const NEW_REQUEST := Request(Init, false, 0, 0, OK, false, false, None, [])

  /** How the client goes about a check call: from its cache, or by a remote
      call that has a token or not. */
  datatype CheckPath = Cached(answer: Status) | Remote(token: bool)

  // ---------------------------------------------------------------------------
  // The steps, inside out
  // ---------------------------------------------------------------------------

  function Emit(s: Request, e: Effect): Request {
    s.(trace := s.trace + [e])
  }

  /** `ServiceControlFilter::onCheckDone`, with `rejectRequest`. */
  function CheckDone(s: Request, status: Status): Request {
    if status.Error? then
      Emit(s.(denied := s.denied + 1, state := Responded), LocalReply(status.code))
    else
      var s' := s.(allowed := s.allowed + 1, state := Complete);
      if s.stopped then Emit(s', DecodingContinued) else s'
  }

  /** `callQuota`; the quota client answers at once. */
  function CallQuota(cfg: Config, s: Request, quota: Status): Request {
    if !IsQuotaRequired(cfg) then CheckDone(s, s.checkStatus)
    else CheckDone(Emit(Emit(s, QuotaCalled), QuotaAnswered(quota)).(checkStatus := quota), quota)
  }

  /** The check call's done function, with `onCheckResponse`. */
  function CheckResponse(cfg: Config, s: Request, answer: Status, quota: Status): Request {
    var s' := Emit(s.(cancelFn := false, onCheckDoneCalled := true, checkStatus := answer),
                   CheckAnswered(answer));
    if answer.Error? then CheckDone(s', answer) else CallQuota(cfg, s', quota)
  }

  /** What the client makes of a remote call's completion: the converted answer
      of a good body, and otherwise OK when it fails open. */
  function ClientAnswer(cfg: Config, call: Status, body: Option<Status>): Status {
    if call.OK? && body.Some? then body.value
    else if cfg.networkFailOpen then OK
    else if call.OK? then Error(INVALID_ARGUMENT)
    else call
  }

  /** Something happens to the check call; if that completes it, the handler is
      told. */
  function CallEvents(cfg: Config, s: Request, e: CallEvent, body: Option<Status>, quota: Status): Request
    requires s.call.Some?
  {
    var c := Apply(s.call.value, e);
    var s' := s.(call := Some(c));
    if |c.done| > |s.call.value.done|
    then CheckResponse(cfg, s', ClientAnswer(cfg, c.done[|c.done| - 1], body), quota)
    else s'
  }

  /** The check call itself; the callback may run before the client returns. */
  function MakeCheckCall(cfg: Config, s: Request, path: CheckPath, quota: Status): Request {
    var s0 := Emit(s.(onCheckDoneCalled := false), CheckCalled);
    var s1 := match path
      case Cached(answer) => CheckResponse(cfg, s0, answer, quota).(cancelFn := false)
      case Remote(token) =>
        CallEvents(cfg, s0.(call := Some(NewCall(cfg.checkRetries))), Start(token), None, quota)
        .(cancelFn := true);
    if s1.onCheckDoneCalled then s1.(cancelFn := false) else s1
  }

  /** `ServiceControlHandlerImpl::callCheck`. */
  function CallCheck(cfg: Config, s: Request, path: CheckPath, quota: Status): Request {
    if !cfg.configured then CheckDone(s, Error(NOT_FOUND))
    else if !IsCheckRequired(cfg) then CallQuota(cfg, s, quota)
    else if !cfg.hasApiKey then
      CheckDone(s.(checkStatus := Error(UNAUTHENTICATED)), Error(UNAUTHENTICATED))
    else MakeCheckCall(cfg, s, path, quota)
  }

  /** `ServiceControlFilter::decodeHeaders`. */
  function DecodeHeaders(cfg: Config, s: Request, path: CheckPath, quota: Status): Request {
    var s' := CallCheck(cfg, s.(state := Calling, stopped := false), path, quota);
    if s'.state == Complete then Emit(s', HeadersContinued) else s'.(stopped := true)
  }

  /** `onDestroy`: cancelling goes through the normal completion. */
  function OnDestroy(cfg: Config, s: Request, quota: Status): Request {
    if s.cancelFn && s.call.Some? then CallEvents(cfg, s, Cancel, None, quota).(cancelFn := false) else s
  }

  // ---------------------------------------------------------------------------
  // Whole runs
  // ---------------------------------------------------------------------------

  datatype Event =
    | Headers(path: CheckPath, quota: Status)
    | CheckReply(code: Option<nat>, body: Option<Status>, token: bool, quota: Status)
    | CheckFailure(token: bool, quota: Status)
    | Destroy(quota: Status)

  predicate EventEnabled(s: Request, e: Event) {
    match e
    case Headers(_, _) => s.state == Init
    case CheckReply(_, _, _, _) => s.call.Some? && s.call.value.inFlight
    case CheckFailure(_, _) => s.call.Some? && s.call.value.inFlight
    case Destroy(_) => true
  }

  function Step(cfg: Config, s: Request, e: Event): Request
    requires EventEnabled(s, e)
  {
    match e
    case Headers(path, quota) => DecodeHeaders(cfg, s, path, quota)
    case CheckReply(code, body, token, quota) => CallEvents(cfg, s, Response(code, token), body, quota)
    case CheckFailure(token, quota) => CallEvents(cfg, s, Failure(token), None, quota)
    case Destroy(quota) => OnDestroy(cfg, s, quota)
  }

  predicate IsRequestRun(cfg: Config, s: Request, es: seq<Event>)
    decreases |es|
  {
    es == [] || (EventEnabled(s, es[0]) && IsRequestRun(cfg, Step(cfg, s, es[0]), es[1..]))
  }

  function AfterEvents(cfg: Config, s: Request, es: seq<Event>): Request
    requires IsRequestRun(cfg, s, es)
    decreases |es|
  {
    if es == [] then s else AfterEvents(cfg, Step(cfg, s, es[0]), es[1..])
  }

  // ---------------------------------------------------------------------------
  // What holds of every run
  // ---------------------------------------------------------------------------

  predicate IsOutcome(e: Effect) {
    e.HeadersContinued? || e.DecodingContinued? || e.LocalReply?
  }

  function Outcomes(trace: seq<Effect>): nat {
    if trace == [] then 0
    else Outcomes(trace[..|trace| - 1]) + (if IsOutcome(trace[|trace| - 1]) then 1 else 0)
  }

  lemma OutcomesEmit(trace: seq<Effect>, e: Effect)
    ensures Outcomes(trace + [e]) == Outcomes(trace) + (if IsOutcome(e) then 1 else 0)
  {
    assert (trace + [e])[..|trace|] == trace;
  }

  /** Every quota call was preceded by the check's OK, where a check is required. */
  ghost predicate QuotaAfterCheck(cfg: Config, trace: seq<Effect>) {
    forall i :: 0 <= i < |trace| && trace[i].QuotaCalled? ==>
      IsQuotaRequired(cfg) && (IsCheckRequired(cfg) ==> CheckAnswered(OK) in trace[..i])
  }

  /** The reasons for letting a request through. */
  ghost predicate Justified(cfg: Config, trace: seq<Effect>) {
    && cfg.configured
    && (IsCheckRequired(cfg) ==> cfg.hasApiKey && CheckAnswered(OK) in trace)
    && (IsQuotaRequired(cfg) ==> QuotaAnswered(OK) in trace)
  }

  ghost predicate Inv(cfg: Config, s: Request) {
    // one verdict, one outcome, counted once
    && Outcomes(s.trace) == s.allowed + s.denied
    && s.allowed == (if s.state == Complete then 1 else 0)
    && s.denied == (if s.state == Responded then 1 else 0)
    // the check call
    && (s.call.Some? ==> CallInv(s.call.value, cfg.checkRetries) && s.call.value.requestCount > 0)
    && (s.cancelFn <==> s.call.Some? && s.call.value.done == [])
    && (s.state == Calling <==> s.cancelFn)
    && (s.state == Init ==> s == NEW_REQUEST)
    && (s.state == Calling ==> s.stopped && cfg.configured && cfg.hasApiKey && IsCheckRequired(cfg))
    // the answers
    && QuotaAfterCheck(cfg, s.trace)
    && (s.state == Complete ==> Justified(cfg, s.trace))
  }

  // Emitting an effect keeps what the trace already shows.

  lemma EmitKeeps(cfg: Config, trace: seq<Effect>, e: Effect)
    requires QuotaAfterCheck(cfg, trace)
    requires e.QuotaCalled? ==> IsQuotaRequired(cfg) && (IsCheckRequired(cfg) ==> CheckAnswered(OK) in trace)
    ensures QuotaAfterCheck(cfg, trace + [e])
    ensures Justified(cfg, trace) ==> Justified(cfg, trace + [e])
    ensures Outcomes(trace + [e]) == Outcomes(trace) + (if IsOutcome(e) then 1 else 0)
  {
    OutcomesEmit(trace, e);
    var t := trace + [e];
    assert forall i :: 0 <= i <= |trace| ==> t[..i] == trace[..i];
    assert trace[..|trace|] == trace;
  }

  /** No verdict yet. */
  ghost predicate Undecided(cfg: Config, s: Request) {
    Outcomes(s.trace) == s.allowed == s.denied == 0 && QuotaAfterCheck(cfg, s.trace)
  }

  /** A verdict was given in going from `s` to `d`.  It has its outcome, unless
      the request is let through while the headers are still being decoded: then
      `decodeHeaders` itself continues. */
  ghost predicate Decided(cfg: Config, s: Request, d: Request) {
    && d.call == s.call && d.stopped == s.stopped
    && QuotaAfterCheck(cfg, d.trace)
    && (d.state == Complete || d.state == Responded)
    && (d.state == Complete ==> d.allowed == 1 && d.denied == 0 && Justified(cfg, d.trace))
    && (d.state == Responded ==> d.allowed == 0 && d.denied == 1)
    && Outcomes(d.trace) == (if d.state == Complete && !s.stopped then 0 else 1)
  }

  lemma CheckDoneDecides(cfg: Config, s: Request, status: Status)
    requires Undecided(cfg, s) && (status.OK? ==> Justified(cfg, s.trace))
    ensures var d := CheckDone(s, status);
            Decided(cfg, s, d) && d.cancelFn == s.cancelFn && d.onCheckDoneCalled == s.onCheckDoneCalled
  {
    EmitKeeps(cfg, s.trace, if status.OK? then DecodingContinued else LocalReply(status.code));
  }

  lemma CallQuotaDecides(cfg: Config, s: Request, quota: Status)
    requires Undecided(cfg, s) && cfg.configured && s.checkStatus == OK
    requires IsCheckRequired(cfg) ==> cfg.hasApiKey && CheckAnswered(OK) in s.trace
    ensures var d := CallQuota(cfg, s, quota);
            Decided(cfg, s, d) && d.cancelFn == s.cancelFn && d.onCheckDoneCalled == s.onCheckDoneCalled
  {
    if IsQuotaRequired(cfg) {
      EmitKeeps(cfg, s.trace, QuotaCalled);
      var s1 := Emit(s, QuotaCalled);
      EmitKeeps(cfg, s1.trace, QuotaAnswered(quota));
      var s2 := Emit(s1, QuotaAnswered(quota));
      assert s2.trace[|s1.trace|] == QuotaAnswered(quota);
      assert CheckAnswered(OK) in s.trace ==> CheckAnswered(OK) in s2.trace;
      CheckDoneDecides(cfg, s2.(checkStatus := quota), quota);
    } else {
      CheckDoneDecides(cfg, s, OK);
    }
  }

  lemma CheckResponseDecides(cfg: Config, s: Request, answer: Status, quota: Status)
    requires Undecided(cfg, s) && cfg.configured && cfg.hasApiKey
    ensures var d := CheckResponse(cfg, s, answer, quota);
            Decided(cfg, s, d) && !d.cancelFn && d.onCheckDoneCalled
  {
    EmitKeeps(cfg, s.trace, CheckAnswered(answer));
    var s' := Emit(s.(cancelFn := false, onCheckDoneCalled := true, checkStatus := answer),
                   CheckAnswered(answer));
    assert s'.trace[|s.trace|] == CheckAnswered(answer);
    if answer.Error? {
      CheckDoneDecides(cfg, s', answer);
    } else {
      CallQuotaDecides(cfg, s', quota);
    }
  }

  /** An event on the pending check call either leaves it pending or decides. */
  lemma CallEventsDecide(cfg: Config, s: Request, e: CallEvent, body: Option<Status>, quota: Status)
    requires Undecided(cfg, s) && cfg.configured && cfg.hasApiKey
    requires s.call.Some? && CallInv(s.call.value, cfg.checkRetries)
    requires s.call.value.done == [] && Enabled(s.call.value, e)
    ensures var d := CallEvents(cfg, s, e, body, quota);
            var c := Apply(s.call.value, e);
            && CallInv(c, cfg.checkRetries)
            && if c.done == [] then d == s.(call := Some(c))
               else Decided(cfg, s.(call := Some(c)), d) && !d.cancelFn && d.onCheckDoneCalled
  {
    var c := Apply(s.call.value, e);
    StepKeepsInv(s.call.value, e, cfg.checkRetries);
    if c.done != [] {
      CheckResponseDecides(cfg, s.(call := Some(c)), ClientAnswer(cfg, c.done[|c.done| - 1], body), quota);
    }
  }

  /** `callCheck` leaves a verdict and nothing to cancel, or a call in flight
      that can be cancelled. */
  ghost predicate Checked(cfg: Config, d: Request) {
    && !d.stopped
    && (d.call.Some? ==> CallInv(d.call.value, cfg.checkRetries) && d.call.value.requestCount > 0)
    && (d.cancelFn <==> d.call.Some? && d.call.value.done == [])
    && if d.cancelFn
       then d.state == Calling && Undecided(cfg, d) && cfg.configured && cfg.hasApiKey && IsCheckRequired(cfg)
       else Decided(cfg, d, d)
  }

  lemma RemoteCheckChecked(cfg: Config, s: Request, token: bool, quota: Status)
    requires Undecided(cfg, s) && cfg.configured && cfg.hasApiKey && IsCheckRequired(cfg)
    requires s.state == Calling && !s.stopped && !s.onCheckDoneCalled
    ensures var d := CallEvents(cfg, s.(call := Some(NewCall(cfg.checkRetries))), Start(token), None, quota)
                     .(cancelFn := true);
            Checked(cfg, if d.onCheckDoneCalled then d.(cancelFn := false) else d)
  {
    CallEventsDecide(cfg, s.(call := Some(NewCall(cfg.checkRetries))), Start(token), None, quota);
  }

  lemma CallCheckChecked(cfg: Config, s: Request, path: CheckPath, quota: Status)
    requires s == NEW_REQUEST.(state := Calling)
    ensures Checked(cfg, CallCheck(cfg, s, path, quota))
  {
    if !cfg.configured {
      CheckDoneDecides(cfg, s, Error(NOT_FOUND));
    } else if !IsCheckRequired(cfg) {
      CallQuotaDecides(cfg, s, quota);
    } else if !cfg.hasApiKey {
      CheckDoneDecides(cfg, s.(checkStatus := Error(UNAUTHENTICATED)), Error(UNAUTHENTICATED));
    } else {
      EmitKeeps(cfg, s.trace, CheckCalled);
      var s0 := Emit(s.(onCheckDoneCalled := false), CheckCalled);
      if path.Cached? {
        CheckResponseDecides(cfg, s0, path.answer, quota);
      } else {
        RemoteCheckChecked(cfg, s0, path.token, quota);
      }
    }
  }

  lemma CheckedKeepsInv(cfg: Config, d: Request)
    requires Checked(cfg, d)
    ensures Inv(cfg, if d.state == Complete then Emit(d, HeadersContinued) else d.(stopped := true))
  {
    if d.state == Complete {
      EmitKeeps(cfg, d.trace, HeadersContinued);
    }
  }

  lemma HeadersKeepInv(cfg: Config, path: CheckPath, quota: Status)
    ensures Inv(cfg, DecodeHeaders(cfg, NEW_REQUEST, path, quota))
  {
    var s := NEW_REQUEST.(state := Calling, stopped := false);
    CallCheckChecked(cfg, s, path, quota);
    CheckedKeepsInv(cfg, CallCheck(cfg, s, path, quota));
  }

  lemma RequestStepKeepsInv(cfg: Config, s: Request, e: Event)
    requires Inv(cfg, s) && EventEnabled(s, e)
    ensures Inv(cfg, Step(cfg, s, e))
  {
    match e
    case Headers(path, quota) => HeadersKeepInv(cfg, path, quota);
    case CheckReply(code, body, token, quota) =>
      CallEventsDecide(cfg, s, Response(code, token), body, quota);
    case CheckFailure(token, quota) =>
      CallEventsDecide(cfg, s, Failure(token), None, quota);
    case Destroy(quota) =>
      if s.cancelFn {
        CallEventsDecide(cfg, s, Cancel, None, quota);
      }
  }

  lemma {:induction false} RunsKeepInv(cfg: Config, s: Request, es: seq<Event>)
    requires Inv(cfg, s) && IsRequestRun(cfg, s, es)
    ensures Inv(cfg, AfterEvents(cfg, s, es))
    decreases |es|
  {
    if es != [] {
      RequestStepKeepsInv(cfg, s, es[0]);
      RunsKeepInv(cfg, Step(cfg, s, es[0]), es[1..]);
    }
  }

  /** Over every run of one request: each verdict has exactly one outcome and is
      counted exactly once, there is at most one, and it is given as soon as the
      headers are decoded unless a check call is still unfinished. */
  lemma OneOutcome(cfg: Config, es: seq<Event>)
    requires IsRequestRun(cfg, NEW_REQUEST, es)
    ensures var s := AfterEvents(cfg, NEW_REQUEST, es);
            && Outcomes(s.trace) == s.allowed + s.denied <= 1
            && (Outcomes(s.trace) == 1 <==> s.state == Complete || s.state == Responded)
            && (s.state == Calling <==> s.call.Some? && s.call.value.inFlight)
  {
    RunsKeepInv(cfg, NEW_REQUEST, es);
  }

  predicate HeadersSeen(es: seq<Event>) {
    exists i :: 0 <= i < |es| && es[i].Headers?
  }

  lemma {:induction false} InitUntilHeaders(cfg: Config, s: Request, es: seq<Event>)
    requires Inv(cfg, s) && IsRequestRun(cfg, s, es)
    ensures AfterEvents(cfg, s, es).state == Init <==> s.state == Init && !HeadersSeen(es)
    decreases |es|
  {
    if es != [] {
      var d := Step(cfg, s, es[0]);
      RequestStepKeepsInv(cfg, s, es[0]);
      StepFromInit(cfg, s, es[0]);
      InitUntilHeaders(cfg, d, es[1..]);
      assert HeadersSeen(es) <==> es[0].Headers? || HeadersSeen(es[1..]) by {
        assert HeadersSeen(es[1..]) ==> HeadersSeen(es) by {
          if i :| 0 <= i < |es[1..]| && es[1..][i].Headers? {
            assert es[i + 1].Headers?;
          }
        }
        if i :| 0 <= i < |es| && es[i].Headers? {
          assert i > 0 ==> es[1..][i - 1].Headers?;
        }
      }
    }
  }

  lemma StepFromInit(cfg: Config, s: Request, e: Event)
    requires Inv(cfg, s) && EventEnabled(s, e)
    ensures Step(cfg, s, e).state == Init <==> s.state == Init && !e.Headers?
  {
    if e.Headers? {
      CallCheckChecked(cfg, s.(state := Calling, stopped := false), e.path, e.quota);
    }
  }

  /** Data and trailers are held back in the calling state, and that is, over
      every run, exactly when the headers have been seen and no outcome has been
      emitted; an unfinished check call is then in flight to bring one. */
  lemma {:induction false} HeldBackUntilOutcome(cfg: Config, es: seq<Event>)
    requires IsRequestRun(cfg, NEW_REQUEST, es)
    ensures var s := AfterEvents(cfg, NEW_REQUEST, es);
            && (s.state == Calling <==> HeadersSeen(es) && Outcomes(s.trace) == 0)
            && (s.state == Calling ==> s.call.Some? && s.call.value.inFlight)
  {
    OneOutcome(cfg, es);
    InitUntilHeaders(cfg, NEW_REQUEST, es);
  }

  /** `s` is where the events take a new request. */
  predicate Reached(cfg: Config, es: seq<Event>, s: Request) {
    IsRequestRun(cfg, NEW_REQUEST, es) && s == AfterEvents(cfg, NEW_REQUEST, es)
  }

  lemma {:induction false} ReachedSnoc(cfg: Config, es: seq<Event>, s: Request, e: Event)
    requires Reached(cfg, es, s) && EventEnabled(s, e)
    ensures Reached(cfg, es + [e], Step(cfg, s, e))
  {
    EventsSnoc(cfg, NEW_REQUEST, es, e);
  }

  lemma {:induction false} ReachedFirst(cfg: Config, path: CheckPath, quota: Status)
    ensures Reached(cfg, [Headers(path, quota)], DecodeHeaders(cfg, NEW_REQUEST, path, quota))
  {
    ReachedSnoc(cfg, [], NEW_REQUEST, Headers(path, quota));
    assert [] + [Headers(path, quota)] == [Headers(path, quota)];
  }

  lemma {:induction false} EventsSnoc(cfg: Config, s: Request, es: seq<Event>, e: Event)
    requires IsRequestRun(cfg, s, es) && EventEnabled(AfterEvents(cfg, s, es), e)
    ensures IsRequestRun(cfg, s, es + [e])
    ensures AfterEvents(cfg, s, es + [e]) == Step(cfg, AfterEvents(cfg, s, es), e)
    decreases |es|
  {
    if es == [] {
      assert (es + [e])[1..] == [];
    } else {
      EventsSnoc(cfg, Step(cfg, s, es[0]), es[1..], e);
      assert (es + [e])[1..] == es[1..] + [e];
    }
  }

  /** A request is let through only if its operation is configured, a required
      check was answered OK and had an API key, and a required quota call was
      answered OK; and no quota call comes before the check's OK. */
  lemma CompleteIsJustified(cfg: Config, es: seq<Event>)
    requires IsRequestRun(cfg, NEW_REQUEST, es)
    ensures var s := AfterEvents(cfg, NEW_REQUEST, es);
            (s.state == Complete ==> Justified(cfg, s.trace)) && QuotaAfterCheck(cfg, s.trace)
  {
    RunsKeepInv(cfg, NEW_REQUEST, es);
  }

  /** The handler can cancel exactly while its check call is unfinished, so its
      call is never cancelled after completing and completes at most once. */
  lemma CancelOnlyUnfinished(cfg: Config, es: seq<Event>)
    requires IsRequestRun(cfg, NEW_REQUEST, es)
    ensures var s := AfterEvents(cfg, NEW_REQUEST, es);
            && (s.cancelFn <==> s.call.Some? && s.call.value.done == [])
            && (s.call.Some? ==> |s.call.value.done| <= 1)
            && (s.cancelFn ==> Enabled(s.call.value, Cancel))
  {
    RunsKeepInv(cfg, NEW_REQUEST, es);
  }

  /** Destroying the stream decides a request that was still waiting: with OK if
      the client fails open and the quota, if required, is granted. */
  lemma DestroyDecides(cfg: Config, es: seq<Event>, quota: Status)
    requires IsRequestRun(cfg, NEW_REQUEST, es)
    requires AfterEvents(cfg, NEW_REQUEST, es).state == Calling
    ensures var s := AfterEvents(cfg, NEW_REQUEST, es);
            var d := OnDestroy(cfg, s, quota);
            && !d.cancelFn && d.call.Some? && |d.call.value.done| == 1
            && d.state == (if cfg.networkFailOpen && (IsQuotaRequired(cfg) ==> quota == OK)
                           then Complete else Responded)
  {
    var s := AfterEvents(cfg, NEW_REQUEST, es);
    RunsKeepInv(cfg, NEW_REQUEST, es);
    CallEventsDecide(cfg, s, Cancel, None, quota);
    var c := Apply(s.call.value, Cancel);
    assert c.done[|c.done| - 1] == Error(CANCELLED);
  }

  // ---------------------------------------------------------------------------
  // The whole behaviour
  // ---------------------------------------------------------------------------

  /** The verdict on a request, from its configuration and the two answers. */
  function Verdict(cfg: Config, answer: Status, quota: Status): Status {
    var keyless := cfg.allowWithoutApiKey || cfg.skipServiceControl;
    if !cfg.configured then Error(NOT_FOUND)
    else if !keyless && !cfg.hasApiKey then Error(UNAUTHENTICATED)
    else if !keyless && answer.Error? then answer
    else if !cfg.skipServiceControl && cfg.hasMetricCosts then quota
    else OK
  }

  function Outcome(verdict: Status, sync: bool): Effect {
    if verdict.Error? then LocalReply(verdict.code)
    else if sync then HeadersContinued
    else DecodingContinued
  }

  /** All there is to see of a request that was decided, inside `decodeHeaders`
      or later. */
  function FullTrace(cfg: Config, answer: Status, quota: Status, sync: bool): seq<Effect> {
    var keyless := cfg.allowWithoutApiKey || cfg.skipServiceControl;
    var checked := cfg.configured && !keyless && cfg.hasApiKey;
    var quotaAsked := cfg.configured && !cfg.skipServiceControl && cfg.hasMetricCosts
                      && (keyless || (cfg.hasApiKey && answer.OK?));
    (if checked then [CheckCalled, CheckAnswered(answer)] else [])
    + (if quotaAsked then [QuotaCalled, QuotaAnswered(quota)] else [])
    + [Outcome(Verdict(cfg, answer, quota), sync)]
  }

  ghost predicate Explains(cfg: Config, s: Request, answer: Status, quota: Status, sync: bool) {
    && s.trace == FullTrace(cfg, answer, quota, sync)
    && s.state == (if Verdict(cfg, answer, quota).OK? then Complete else Responded)
    && (s.state == Complete ==> s.stopped == !sync)
    && (cfg.configured ==> s.checkStatus == Verdict(cfg, answer, quota))
  }

  /** What is seen up to now is the start of one full trace, or all of it. */
  ghost predicate TraceInv(cfg: Config, s: Request) {
    match s.state
    case Init => true
    case Calling => s.trace == [CheckCalled]
    case _ =>
      exists answer, quota, sync :: Explains(cfg, s, answer, quota, sync) && (sync || MakesCheckCall(cfg))
  }

  /** Only a request with a check call to make can be decided after its headers. */
  predicate MakesCheckCall(cfg: Config) {
    cfg.configured && !cfg.allowWithoutApiKey && !cfg.skipServiceControl && cfg.hasApiKey
  }

  lemma CheckResponseTrace(cfg: Config, s: Request, answer: Status, quota: Status)
    requires MakesCheckCall(cfg) && s.trace == [CheckCalled]
    ensures var d := CheckResponse(cfg, s, answer, quota);
            && d.state == (if Verdict(cfg, answer, quota).OK? then Complete else Responded)
            && d.checkStatus == Verdict(cfg, answer, quota)
            && FullTrace(cfg, answer, quota, !s.stopped) ==
               d.trace + (if d.state == Complete && !s.stopped then [HeadersContinued] else [])
  {}

  /** Requests decided without a check call. */
  lemma UncheckedTrace(cfg: Config, path: CheckPath, quota: Status)
    requires !MakesCheckCall(cfg)
    ensures Explains(cfg, DecodeHeaders(cfg, NEW_REQUEST, path, quota), OK, quota, true)
  {}

  /** What the headers lead to.  Without a check call to make, or with a check
      answered at once, the request is decided there and then, by that answer;
      otherwise its first attempt is in flight. */
  lemma HeadersDecide(cfg: Config, path: CheckPath, quota: Status)
    ensures var d := DecodeHeaders(cfg, NEW_REQUEST, path, quota);
            if !MakesCheckCall(cfg) then Explains(cfg, d, OK, quota, true)
            else match path
              case Cached(answer) => Explains(cfg, d, answer, quota, true)
              case Remote(token) =>
                if token
                then d.state == Calling && d.trace == [CheckCalled] && d.stopped
                     && d.call == Some(MakeOneCall(NewCall(cfg.checkRetries), true))
                else Explains(cfg, d, if cfg.networkFailOpen then OK else Error(INTERNAL), quota, true)
  {
    if !MakesCheckCall(cfg) {
      UncheckedTrace(cfg, path, quota);
      return;
    }
    var s0 := Emit(NEW_REQUEST.(state := Calling, stopped := false, onCheckDoneCalled := false), CheckCalled);
    match path
    case Cached(answer) =>
      CheckResponseTrace(cfg, s0, answer, quota);
    case Remote(token) =>
      var c := Apply(NewCall(cfg.checkRetries), Start(token));
      if !token {
        CheckResponseTrace(cfg, s0.(call := Some(c)), ClientAnswer(cfg, Error(INTERNAL), None), quota);
      }
  }

  lemma CallEventsTrace(cfg: Config, s: Request, e: CallEvent, body: Option<Status>, quota: Status)
    requires Inv(cfg, s) && s.state == Calling && s.trace == [CheckCalled]
    requires Enabled(s.call.value, e) && !e.Start?
    ensures TraceInv(cfg, CallEvents(cfg, s, e, body, quota))
  {
    if Apply(s.call.value, e).done != [] {
      CompletionExplained(cfg, s, e, body, quota);
    }
  }

  lemma StepKeepsTrace(cfg: Config, s: Request, e: Event)
    requires Inv(cfg, s) && TraceInv(cfg, s) && EventEnabled(s, e)
    ensures TraceInv(cfg, Step(cfg, s, e))
  {
    match e
    case Headers(path, quota) =>
      HeadersDecide(cfg, path, quota);
    case CheckReply(code, body, token, quota) =>
      CallEventsTrace(cfg, s, Response(code, token), body, quota);
    case CheckFailure(token, quota) =>
      CallEventsTrace(cfg, s, Failure(token), None, quota);
    case Destroy(quota) =>
      if s.cancelFn {
        CallEventsTrace(cfg, s, Cancel, None, quota);
      }
  }

  lemma {:induction false} RunsKeepTrace(cfg: Config, s: Request, es: seq<Event>)
    requires Inv(cfg, s) && TraceInv(cfg, s) && IsRequestRun(cfg, s, es)
    ensures TraceInv(cfg, AfterEvents(cfg, s, es))
    decreases |es|
  {
    if es != [] {
      RequestStepKeepsInv(cfg, s, es[0]);
      StepKeepsTrace(cfg, s, es[0]);
      RunsKeepTrace(cfg, Step(cfg, s, es[0]), es[1..]);
    }
  }

  /** The order and content of everything observable, over every run: a waiting
      request has called check and nothing more, and a decided one shows exactly
      the calls its configuration requires, their answers, and the one outcome
      that is the verdict on them. */
  lemma EveryRunExplained(cfg: Config, es: seq<Event>)
    requires IsRequestRun(cfg, NEW_REQUEST, es)
    ensures TraceInv(cfg, AfterEvents(cfg, NEW_REQUEST, es))
  {
    RunsKeepTrace(cfg, NEW_REQUEST, es);
  }

  /** What the settings decide, effect by effect, and the status kept for reports.  A request that may go without a
      key is never checked, and one without metric costs is never asked about
      quota.  A request let through had every call its settings ask for answered
      OK, in this order, and continues inside `decodeHeaders` or, if that stopped
      it, later.  A request denied by an answer is denied with its code. */
  ghost predicate FollowsSettings(cfg: Config, s: Request) {
    var keyless := cfg.allowWithoutApiKey || cfg.skipServiceControl;
    var free := cfg.skipServiceControl || !cfg.hasMetricCosts;
    var checked := if keyless then [] else [CheckCalled, CheckAnswered(OK)];
    match s.state
    case Init => s.trace == []
    case Calling => !keyless && s.trace == [CheckCalled]
    case Complete =>
      && cfg.configured && (!keyless ==> cfg.hasApiKey) && (keyless ==> !s.stopped)
      && s.checkStatus == OK
      && s.trace == checked + (if free then [] else [QuotaCalled, QuotaAnswered(OK)])
                    + [if s.stopped then DecodingContinued else HeadersContinued]
    case Responded =>
      if !cfg.configured then s.trace == [LocalReply(NOT_FOUND)]
      else s.checkStatus.Error? && DeniedWith(cfg, s.trace, s.checkStatus.code)
  }

  /** The traces of a request denied for want of a key, by the check or by quota. */
  predicate DeniedWith(cfg: Config, trace: seq<Effect>, code: Code) {
    var keyless := cfg.allowWithoutApiKey || cfg.skipServiceControl;
    var checked := if keyless then [] else [CheckCalled, CheckAnswered(OK)];
    if !keyless && !cfg.hasApiKey then code == UNAUTHENTICATED && trace == [LocalReply(UNAUTHENTICATED)]
    else
      || (!keyless && trace == [CheckCalled, CheckAnswered(Error(code)), LocalReply(code)])
      || (!cfg.skipServiceControl && cfg.hasMetricCosts
          && trace == checked + [QuotaCalled, QuotaAnswered(Error(code)), LocalReply(code)])
  }

  lemma {:induction false} ExplainedFollows(cfg: Config, s: Request, answer: Status, quota: Status, sync: bool)
    requires Explains(cfg, s, answer, quota, sync) && (sync || MakesCheckCall(cfg))
    ensures FollowsSettings(cfg, s)
  {}

  /** Over every run. */
  lemma {:induction false} EveryRunFollowsSettings(cfg: Config, es: seq<Event>)
    requires IsRequestRun(cfg, NEW_REQUEST, es)
    ensures FollowsSettings(cfg, AfterEvents(cfg, NEW_REQUEST, es))
  {
    var s := AfterEvents(cfg, NEW_REQUEST, es);
    RunsKeepInv(cfg, NEW_REQUEST, es);
    EveryRunExplained(cfg, es);
    if s.state == Complete || s.state == Responded {
      var answer, quota, sync :| Explains(cfg, s, answer, quota, sync) && (sync || MakesCheckCall(cfg));
      ExplainedFollows(cfg, s, answer, quota, sync);
    }
  }

  /** What a reply to a waiting request leads to.  A 200 answers the check with
      its body; any other code is retried, if it is no client error, retries are
      left and there is a token; and what is not retried counts as OK if the
      client fails open and denies the request otherwise. */
  lemma ReplyDecides(cfg: Config, es: seq<Event>, code: Option<nat>, body: Option<Status>, token: bool,
                     quota: Status)
    requires IsRequestRun(cfg, NEW_REQUEST, es)
    requires AfterEvents(cfg, NEW_REQUEST, es).state == Calling
    ensures var s := AfterEvents(cfg, NEW_REQUEST, es);
            && EventEnabled(s, CheckReply(code, body, token, quota))
            && var d := Step(cfg, s, CheckReply(code, body, token, quota));
               var open := if cfg.networkFailOpen then OK else Error(INTERNAL);
               if code == Some(200) then
                 Explains(cfg, d, if body.Some? then body.value
                                  else if cfg.networkFailOpen then OK
                                  else Error(INVALID_ARGUMENT), quota, false)
               else if code.Some? && !(400 <= code.value < 500) && s.call.value.retries > 0 && token then
                 d == s.(call := Some(Retry(s.call.value, true)))
               else Explains(cfg, d, open, quota, false)
  {
    var s := AfterEvents(cfg, NEW_REQUEST, es);
    RunsKeepInv(cfg, NEW_REQUEST, es);
    RunsKeepTrace(cfg, NEW_REQUEST, es);
    var c := Apply(s.call.value, Response(code, token));
    if c.done != [] {
      CompletionExplained(cfg, s, Response(code, token), body, quota);
    }
  }

  /** An event that completes the call of a waiting request decides the request by
      what the client makes of it. */
  lemma CompletionExplained(cfg: Config, s: Request, e: CallEvent, body: Option<Status>, quota: Status)
    requires Inv(cfg, s) && s.state == Calling && s.trace == [CheckCalled]
    requires Enabled(s.call.value, e) && Apply(s.call.value, e).done != []
    ensures var done := Apply(s.call.value, e).done;
            Explains(cfg, CallEvents(cfg, s, e, body, quota), ClientAnswer(cfg, done[|done| - 1], body), quota, false)
  {
    var c := Apply(s.call.value, e);
    CheckResponseTrace(cfg, s.(call := Some(c)), ClientAnswer(cfg, c.done[|c.done| - 1], body), quota);
  }

  /** And what a network failure leads to. */
  lemma FailureDecides(cfg: Config, es: seq<Event>, token: bool, quota: Status)
    requires IsRequestRun(cfg, NEW_REQUEST, es)
    requires AfterEvents(cfg, NEW_REQUEST, es).state == Calling
    ensures var s := AfterEvents(cfg, NEW_REQUEST, es);
            && EventEnabled(s, CheckFailure(token, quota))
            && var d := Step(cfg, s, CheckFailure(token, quota));
               if s.call.value.retries > 0 && token then d == s.(call := Some(Retry(s.call.value, true)))
               else Explains(cfg, d, if cfg.networkFailOpen then OK else Error(INTERNAL), quota, false)
  {
    var s := AfterEvents(cfg, NEW_REQUEST, es);
    RunsKeepInv(cfg, NEW_REQUEST, es);
    RunsKeepTrace(cfg, NEW_REQUEST, es);
    var c := Apply(s.call.value, Failure(token));
    if c.done != [] {
      CompletionExplained(cfg, s, Failure(token), None, quota);
    }
  }
}
