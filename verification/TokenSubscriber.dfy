/** The token refresh loop of src/envoy/token/token_subscriber.cc: a request for
    a token, a one-shot timer, and the signal that the server may start.  The
    asynchronous client answers a request in flight once unless it is cancelled. */
module TokenSubscribers {

  import opened Wrappers

  const FAILED_REQUEST_RETRY_SECONDS := 2
  const REFRESH_BUFFER_SECONDS := 5

  /** `timer` is the delay the timer is armed with; `tokens` the tokens delivered
      to the callback; `sent` and `cancelled` count requests. */
  datatype Subscriber = Subscriber(
    activeRequest: bool,
    timer: Option<int>,
    ready: bool,
    tokens: seq<string>,
    sent: nat,
    cancelled: nat,
    answered: nat)

  const NEW_SUBSCRIBER := Subscriber(false, None, false, [], 0, 0, 0)

  /** A token and the seconds it is good for. */
  datatype TokenResult = TokenResult(token: string, expiresIn: int)

  /** What happens to the subscriber.  `prepared` tells whether the request can
      be prepared should the event lead to one.  A response has no result when
      its status is missing or not 200, or when it does not parse. */
  datatype TokenEvent =
    | InitTarget(prepared: bool)
    | TimerFires(prepared: bool)
    | TokenResponse(result: Option<TokenResult>, prepared: bool)
    | TokenFailure

  // ---------------------------------------------------------------------------
  // The steps
  // ---------------------------------------------------------------------------

  function HandleFail(s: Subscriber): Subscriber {
    s.(activeRequest := false, timer := Some(FAILED_REQUEST_RETRY_SECONDS))
  }

  /** A request still in flight is cancelled first. */
  function Refresh(s: Subscriber, prepared: bool): Subscriber {
    var s' := if s.activeRequest then s.(cancelled := s.cancelled + 1) else s;
    if prepared then s'.(activeRequest := true, sent := s'.sent + 1) else HandleFail(s')
  }

  function HandleSuccess(s: Subscriber, r: TokenResult, prepared: bool): Subscriber {
    var s' := s.(activeRequest := false, tokens := s.tokens + [r.token]);
    var s'' := if r.expiresIn <= REFRESH_BUFFER_SECONDS then Refresh(s', prepared)
               else s'.(timer := Some(r.expiresIn - REFRESH_BUFFER_SECONDS));
    s''.(ready := true)
  }

  function Step(s: Subscriber, e: TokenEvent): Subscriber {
    match e
    case InitTarget(prepared) => Refresh(s, prepared)
    case TimerFires(prepared) => Refresh(s.(timer := None), prepared)
    case TokenResponse(result, prepared) =>
      var s' := s.(answered := s.answered + 1);
      if result.Some? then HandleSuccess(s', result.value, prepared) else HandleFail(s')
    case TokenFailure => HandleFail(s.(answered := s.answered + 1))
  }

  class TokenSubscriber {
    var activeRequest: bool
    var timer: Option<int>
    var ready: bool
    var tokens: seq<string>
    ghost var sent: nat
    ghost var cancelled: nat
    ghost var answered: nat
    ghost var History: seq<TokenEvent>

    ghost function State(): Subscriber
      reads this
    {
      Subscriber(activeRequest, timer, ready, tokens, sent, cancelled, answered)
    }

    /** The object is where its history takes a new subscriber. */
    ghost predicate Valid()
      reads this
    {
      IsRun(NEW_SUBSCRIBER, History) && State() == AfterRun(NEW_SUBSCRIBER, History)
    }

    constructor ()
      ensures Valid() && History == [] && State() == NEW_SUBSCRIBER
    {
      History := [];
      activeRequest, timer, ready, tokens := false, None, false, [];
      sent, cancelled, answered := 0, 0, 0;
    }

    method HandleFailResponse()
      modifies this
      ensures State() == HandleFail(old(State())) && History == old(History)
    {
      activeRequest := false;
      timer := Some(FAILED_REQUEST_RETRY_SECONDS);
    }

    method DoRefresh(prepared: bool)
      modifies this
      ensures State() == Refresh(old(State()), prepared) && History == old(History)
    {
      if activeRequest {
        cancelled := cancelled + 1;
      }
      if !prepared {
        HandleFailResponse();
        return;
      }
      activeRequest := true;
      sent := sent + 1;
    }

    method HandleSuccessResponse(r: TokenResult, prepared: bool)
      modifies this
      ensures State() == HandleSuccess(old(State()), r, prepared) && History == old(History)
    {
      activeRequest := false;
      tokens := tokens + [r.token];
      if r.expiresIn <= REFRESH_BUFFER_SECONDS {
        DoRefresh(prepared);
      } else {
        timer := Some(r.expiresIn - REFRESH_BUFFER_SECONDS);
      }
      ready := true;
    }

    method OnInit(prepared: bool)
      requires Valid() && Enabled(State(), InitTarget(prepared))
      modifies this
      ensures Valid() && History == old(History) + [InitTarget(prepared)]
      ensures State() == Step(old(State()), InitTarget(prepared))
    {
      Record(InitTarget(prepared));
      DoRefresh(prepared);
    }

    method OnTimer(prepared: bool)
      requires Valid() && Enabled(State(), TimerFires(prepared))
      modifies this
      ensures Valid() && History == old(History) + [TimerFires(prepared)]
      ensures State() == Step(old(State()), TimerFires(prepared))
    {
      Record(TimerFires(prepared));
      timer := None;
      DoRefresh(prepared);
    }

    method ProcessResponse(result: Option<TokenResult>, prepared: bool)
      requires Valid() && Enabled(State(), TokenResponse(result, prepared))
      modifies this
      ensures Valid() && History == old(History) + [TokenResponse(result, prepared)]
      ensures State() == Step(old(State()), TokenResponse(result, prepared))
    {
      Record(TokenResponse(result, prepared));
      answered := answered + 1;
      if result.None? {
        HandleFailResponse();
        return;
      }
      HandleSuccessResponse(result.value, prepared);
    }

    method OnFailure()
      requires Valid() && Enabled(State(), TokenFailure)
      modifies this
      ensures Valid() && History == old(History) + [TokenFailure]
      ensures State() == Step(old(State()), TokenFailure)
    {
      Record(TokenFailure);
      answered := answered + 1;
      HandleFailResponse();
    }

    ghost method Record(e: TokenEvent)
      requires Valid() && Enabled(State(), e)
      modifies this`History
      ensures History == old(History) + [e] && IsRun(NEW_SUBSCRIBER, History)
      ensures AfterRun(NEW_SUBSCRIBER, History) == Step(State(), e)
    {
      RunSnoc(NEW_SUBSCRIBER, History, e);
      History := History + [e];
    }

    /** Of the object: it has delivered the tokens its history brought and is ready
        exactly if there was one; and once initialised it never stalls. */
    lemma NeverStalls()
      requires Valid()
      ensures tokens == TokensOf(History)
      ensures ready <==> exists i :: 0 <= i < |History| && BringsToken(History[i])
      ensures History != [] ==> LoopInv(State())
    {
      DeliversTokens(History);
      if History != [] {
        RefreshNeverStalls(History);
      }
    }
  }

  // ---------------------------------------------------------------------------
  // Whole runs
  // ---------------------------------------------------------------------------

  /** The init manager starts the loop once; the timer fires when armed; a
      request in flight is answered. */
  predicate Enabled(s: Subscriber, e: TokenEvent) {
    match e
    case InitTarget(_) => s == NEW_SUBSCRIBER
    case TimerFires(_) => s.timer.Some?
    case TokenResponse(_, _) => s.activeRequest
    case TokenFailure => s.activeRequest
  }

  predicate IsRun(s: Subscriber, es: seq<TokenEvent>)
    decreases |es|
  {
    es == [] || (Enabled(s, es[0]) && IsRun(Step(s, es[0]), es[1..]))
  }

  function AfterRun(s: Subscriber, es: seq<TokenEvent>): Subscriber
    decreases |es|
  {
    if es == [] then s else AfterRun(Step(s, es[0]), es[1..])
  }

  lemma {:induction false} AfterRunSnoc(s: Subscriber, es: seq<TokenEvent>, e: TokenEvent)
    ensures AfterRun(s, es + [e]) == Step(AfterRun(s, es), e)
    decreases |es|
  {
    if es == [] {
      assert (es + [e])[1..] == [];
    } else {
      AfterRunSnoc(Step(s, es[0]), es[1..], e);
      assert (es + [e])[1..] == es[1..] + [e];
    }
  }

  lemma {:induction false} RunSnoc(s: Subscriber, es: seq<TokenEvent>, e: TokenEvent)
    requires IsRun(s, es) && Enabled(AfterRun(s, es), e)
    ensures IsRun(s, es + [e]) && AfterRun(s, es + [e]) == Step(AfterRun(s, es), e)
    decreases |es|
  {
    if es == [] {
      assert (es + [e])[1..] == [];
    } else {
      RunSnoc(Step(s, es[0]), es[1..], e);
      assert (es + [e])[1..] == es[1..] + [e];
    }
  }

  ghost predicate LoopInv(s: Subscriber) {
    && (s.activeRequest != s.timer.Some?)
    && (s.timer.Some? ==> s.timer.value > 0)
    && (s.ready <==> s.tokens != [])
    && s.cancelled == 0
    && s.sent == s.answered + (if s.activeRequest then 1 else 0)
  }

  lemma {:induction false} LoopKeepsInv(s: Subscriber, es: seq<TokenEvent>)
    requires LoopInv(s) && IsRun(s, es)
    ensures LoopInv(AfterRun(s, es))
    decreases |es|
  {
    if es != [] {
      LoopKeepsInv(Step(s, es[0]), es[1..]);
    }
  }

  /** The loop never stalls and never doubles: after the first refresh there is
      always either a request in flight or an armed timer with a positive delay,
      and never both; no request is ever cancelled by the next, each is answered
      but for the one in flight; and readiness comes with the first token. */
  lemma RefreshNeverStalls(es: seq<TokenEvent>)
    requires es != [] && IsRun(NEW_SUBSCRIBER, es)
    ensures LoopInv(AfterRun(NEW_SUBSCRIBER, es))
  {
    LoopKeepsInv(Step(NEW_SUBSCRIBER, es[0]), es[1..]);
  }

  predicate BringsToken(e: TokenEvent) {
    e.TokenResponse? && e.result.Some?
  }

  /** The tokens a run brings, in order. */
  function TokensOf(es: seq<TokenEvent>): seq<string> {
    if es == [] then []
    else
      TokensOf(es[..|es| - 1])
      + (if BringsToken(es[|es| - 1]) then [es[|es| - 1].result.value.token] else [])
  }

  /** Exactly the tokens of successful responses are delivered, in order, and
      readiness is signalled exactly if there was one. */
  lemma {:induction false} DeliversTokens(es: seq<TokenEvent>)
    ensures var s := AfterRun(NEW_SUBSCRIBER, es);
            && s.tokens == TokensOf(es)
            && (s.ready <==> exists i :: 0 <= i < |es| && BringsToken(es[i]))
  {
    if es != [] {
      var init, last := es[..|es| - 1], es[|es| - 1];
      DeliversTokens(init);
      AfterRunSnoc(NEW_SUBSCRIBER, init, last);
      assert init + [last] == es;
      StepDelivers(AfterRun(NEW_SUBSCRIBER, init), last);
      assert forall i :: 0 <= i < |init| ==> es[i] == init[i];
    }
  }

  lemma StepDelivers(s: Subscriber, e: TokenEvent)
    ensures var d := Step(s, e);
            && d.tokens == s.tokens + (if BringsToken(e) then [e.result.value.token] else [])
            && d.ready == (s.ready || BringsToken(e))
  {
    assert s.tokens + [] == s.tokens;
  }

  /** A run begins with the first refresh and can always go on: with an answer to
      the request in flight, or else with the timer. */
  lemma {:induction false} GoesOn(es: seq<TokenEvent>, e: TokenEvent)
    requires IsRun(NEW_SUBSCRIBER, es)
    ensures var s := AfterRun(NEW_SUBSCRIBER, es);
            Enabled(s, e) <==> if es == [] then e.InitTarget?
                               else if s.activeRequest then e.TokenResponse? || e.TokenFailure?
                               else e.TimerFires?
  {
    if es != [] {
      RefreshNeverStalls(es);
      StaysStarted(es);
    }
  }

  lemma {:induction false} StaysStarted(es: seq<TokenEvent>)
    requires es != [] && IsRun(NEW_SUBSCRIBER, es)
    ensures AfterRun(NEW_SUBSCRIBER, es) != NEW_SUBSCRIBER
  {
    RefreshNeverStalls(es);
  }

  /** What comes of each event in each reachable state: after a failure the timer
      is set to two seconds and nothing is delivered; a refresh sends a request,
      or if it cannot be prepared waits those two seconds. */
  lemma {:induction false} NextAttempt(es: seq<TokenEvent>, e: TokenEvent)
    requires IsRun(NEW_SUBSCRIBER, es) && Enabled(AfterRun(NEW_SUBSCRIBER, es), e) && !BringsToken(e)
    ensures var s, d := AfterRun(NEW_SUBSCRIBER, es), AfterRun(NEW_SUBSCRIBER, es + [e]);
            && d.tokens == s.tokens && d.ready == s.ready
            && (if (e.InitTarget? || e.TimerFires?) && e.prepared
                then d.activeRequest && d.timer == None && d.sent == s.sent + 1
                else !d.activeRequest && d.timer == Some(2) && d.sent == s.sent)
  {
    AfterRunSnoc(NEW_SUBSCRIBER, es, e);
    if es != [] {
      RefreshNeverStalls(es);
    }
  }

  /** After a token that lives longer than the buffer, the next refresh is due
      exactly the buffer before it expires. */
  lemma NextRefreshBeforeExpiry(es: seq<TokenEvent>, r: TokenResult, prepared: bool)
    requires IsRun(NEW_SUBSCRIBER, es) && AfterRun(NEW_SUBSCRIBER, es).activeRequest
    ensures var s := Step(AfterRun(NEW_SUBSCRIBER, es), TokenResponse(Some(r), prepared));
            && s.ready && s.tokens != [] && s.tokens[|s.tokens| - 1] == r.token
            && (r.expiresIn > 5 ==> !s.activeRequest && s.timer == Some(r.expiresIn - 5))
            && (r.expiresIn <= 5 ==>
                  s.activeRequest == prepared && s.timer == (if prepared then None else Some(2)))
  {
    assert es != [];
    RefreshNeverStalls(es);
  }
}
