/** One remote call to the service control server, with retries and
    cancellation, and the factory that keeps track of unfinished calls
    (src/envoy/http/service_control/http_call.cc).

    The asynchronous client is the environment: it answers a request in flight
    at most once, and not after the request was cancelled.  What the call does
    is recorded as the list of statuses its done function was invoked with. */
module HttpCalls {

  import opened Wrappers

  datatype Code = CANCELLED | INTERNAL | INVALID_ARGUMENT | NOT_FOUND | UNAUTHENTICATED | OTHER(code: nat)
  datatype Status = OK | Error(code: Code)

  /** The state of a call.  `inFlight` is a non-null request pointer, `deleted`
      that the call handed itself to deferred deletion. */
  datatype Call = Call(retries: nat, requestCount: nat, inFlight: bool, cancelled: bool,
                       deleted: bool, done: seq<Status>)

  /** What can happen to a call.  `token` tells whether an access token is there
      in case the event leads to another attempt; a response without a status
      header has no code. */
  datatype CallEvent =
    | Start(token: bool)
    | Response(code: Option<nat>, token: bool)
    | Failure(token: bool)
    | Cancel

  // ---------------------------------------------------------------------------
  // The steps
  // ---------------------------------------------------------------------------

  function NewCall(retries: nat): Call {
    Call(retries, 0, false, false, false, [])
  }

  /** Invokes the done function and deletes the call. */
  function Finish(c: Call, status: Status): Call {
    c.(done := c.done + [status], inFlight := false, deleted := true)
  }

  function MakeOneCall(c: Call, token: bool): Call {
    var c' := c.(requestCount := c.requestCount + 1);
    if token then c'.(inFlight := true)
    else c'.(done := c'.done + [Error(INTERNAL)], deleted := true)
  }

  predicate Retries(c: Call, code: nat) {
    !(400 <= code < 500) && c.retries > 0
  }

  function Retry(c: Call, token: bool): Call
    requires c.retries > 0
  {
    MakeOneCall(c.(retries := c.retries - 1, inFlight := false), token)
  }

  function OnResponse(c: Call, code: Option<nat>, token: bool): Call {
    if code == Some(200) then Finish(c, OK)
    else if code.Some? && Retries(c, code.value) then Retry(c, token)
    else Finish(c, Error(INTERNAL))
  }

  function OnNetworkFailure(c: Call, token: bool): Call {
    if Retries(c, 0) then Retry(c, token) else Finish(c, Error(INTERNAL))
  }

  function OnCancel(c: Call): Call {
    if c.cancelled then c else Finish(c.(cancelled := true), Error(CANCELLED))
  }

  function Apply(c: Call, e: CallEvent): Call {
    match e
    case Start(token) => MakeOneCall(c, token)
    case Response(code, token) => OnResponse(c, code, token)
    case Failure(token) => OnNetworkFailure(c, token)
    case Cancel => OnCancel(c)
  }

  /** The call object itself.  `History` is what happened to it. */
  class HttpCallImpl {
    const configured: nat
    var retries: nat
    var requestCount: nat
    var inFlight: bool
    var cancelled: bool
    var deleted: bool
    var done: seq<Status>
    ghost var History: seq<CallEvent>

    ghost function State(): Call
      reads this
    {
      Call(retries, requestCount, inFlight, cancelled, deleted, done)
    }

    /** The object is where its history, a run with cancellations at any time,
        takes a new call. */
    ghost predicate Valid()
      reads this
    {
      && IsFreeRun(NewCall(configured), History)
      && State() == AfterRun(NewCall(configured), History)
    }

    constructor (retries: nat)
      ensures Valid() && configured == retries && History == [] && State() == NewCall(retries)
    {
      configured, this.retries, requestCount, History := retries, retries, 0, [];
      inFlight, cancelled, deleted, done := false, false, false, [];
    }

    method OnDone(status: Status)
      modifies this`done
      ensures done == old(done) + [status]
    {
      done := done + [status];
    }

    /** One attempt; without a token it completes at once. */
    method DoOneCall(token: bool)
      modifies this
      ensures State() == MakeOneCall(old(State()), token) && History == old(History)
    {
      requestCount := requestCount + 1;
      if !token {
        OnDone(Error(INTERNAL));
        deleted := true;
        return;
      }
      inFlight := true;
    }

    method AttemptRetry(code: nat, token: bool) returns (retried: bool)
      modifies this
      ensures retried == Retries(old(State()), code)
      ensures State() == if retried then Retry(old(State()), token) else old(State())
      ensures History == old(History)
    {
      if code >= 400 && code < 500 {
        return false;
      }
      if retries <= 0 {
        return false;
      }
      retries := retries - 1;
      inFlight := false;
      DoOneCall(token);
      return true;
    }

    method OnSuccess(code: Option<nat>, token: bool)
      modifies this
      ensures State() == OnResponse(old(State()), code, token) && History == old(History)
    {
      if code.None? {
        OnDone(Error(INTERNAL));
      } else if code.value == 200 {
        OnDone(OK);
      } else {
        var retried := AttemptRetry(code.value, token);
        if retried {
          return;
        }
        OnDone(Error(INTERNAL));
      }
      inFlight := false;
      deleted := true;
    }

    method OnFailure(token: bool)
      modifies this
      ensures State() == OnNetworkFailure(old(State()), token) && History == old(History)
    {
      var retried := AttemptRetry(0, token);
      if retried {
        return;
      }
      OnDone(Error(INTERNAL));
      inFlight := false;
      deleted := true;
    }

    method CancelCall()
      modifies this
      ensures State() == OnCancel(old(State())) && History == old(History)
    {
      if cancelled {
        return;
      }
      cancelled := true;
      if inFlight {
        inFlight := false;
      }
      OnDone(Error(CANCELLED));
      deleted := true;
    }

    /** Whatever the environment may do next. */
    method OnEvent(e: CallEvent)
      requires Valid() && (e.Cancel? || Enabled(State(), e))
      modifies this
      ensures Valid() && History == old(History) + [e] && State() == Apply(old(State()), e)
    {
      RunSnoc(NewCall(configured), History, e);
      History := History + [e];
      match e
      case Start(token) => DoOneCall(token);
      case Response(code, token) => OnSuccess(code, token);
      case Failure(token) => OnFailure(token);
      case Cancel => CancelCall();
    }

    /** What every run keeps holds of the object: its done function was invoked
        at most once exactly if it was never cancelled after completing by
        itself, and then a started call is done or in flight and not both, and
        attempts and retries add up. */
    lemma CompletesOnce()
      requires Valid()
      ensures |done| <= 1 <==> IsRun(NewCall(configured), History)
      ensures |done| <= 1 ==> CallInv(State(), configured)
      ensures |done| <= 1 ==> done == DoneAfter(configured, History)
                              && requestCount == Starts(History) + Min(configured, Retryables(History))
    {
      AtMostOnceIff(NewCall(configured), History, configured);
      if |done| <= 1 {
        CallExplained(configured, History);
        RunKeepsInv(NewCall(configured), History, configured);
      }
    }
  }

  // ---------------------------------------------------------------------------
  // Whole runs of one call
  // ---------------------------------------------------------------------------

  /** What the environment may do: start the call once, answer a request in
      flight, cancel at any time but after an uncancelled completion. */
  predicate Enabled(c: Call, e: CallEvent) {
    match e
    case Start(_) => c.requestCount == 0 && c.done == []
    case Response(_, _) => c.inFlight
    case Failure(_) => c.inFlight
    case Cancel => c.done == [] || c.cancelled
  }

  predicate IsRun(c: Call, es: seq<CallEvent>)
    decreases |es|
  {
    es == [] || (Enabled(c, es[0]) && IsRun(Apply(c, es[0]), es[1..]))
  }

  function AfterRun(c: Call, es: seq<CallEvent>): Call
    decreases |es|
  {
    if es == [] then c else AfterRun(Apply(c, es[0]), es[1..])
  }

  /** In every reachable state the done function was invoked at most once, the
      call is deleted exactly when it was, a started call is either in flight or
      done and never both, and attempts and retries add up. */
  ghost predicate CallInv(c: Call, configured: nat) {
    && |c.done| <= 1 && (c.deleted <==> c.done != [])
    && !(c.inFlight && c.done != [])
    && (c.cancelled ==> c.done == [Error(CANCELLED)])
    && (c.requestCount == 0 ==> !c.inFlight && c.retries == configured && (c.done != [] ==> c.cancelled))
    && (c.requestCount > 0 ==> c.requestCount + c.retries == configured + 1 && (c.inFlight || c.done != []))
  }

  lemma StepKeepsInv(c: Call, e: CallEvent, configured: nat)
    requires CallInv(c, configured) && Enabled(c, e)
    ensures CallInv(Apply(c, e), configured)
  {}

  lemma {:induction false} RunKeepsInv(c: Call, es: seq<CallEvent>, configured: nat)
    requires CallInv(c, configured) && IsRun(c, es)
    ensures CallInv(AfterRun(c, es), configured)
    decreases |es|
  {
    if es != [] {
      StepKeepsInv(c, es[0], configured);
      RunKeepsInv(Apply(c, es[0]), es[1..], configured);
    }
  }

  /** Exactly-once completion and the retry bound, over every run. */
  lemma CallRuns(retries: nat, es: seq<CallEvent>)
    requires IsRun(NewCall(retries), es)
    ensures var c := AfterRun(NewCall(retries), es);
            && |c.done| <= 1
            && (c.requestCount > 0 ==> (|c.done| == 1 <==> !c.inFlight))
            && c.requestCount <= retries + 1
            && (c.requestCount > 0 ==> c.requestCount + c.retries == retries + 1)
  {
    RunKeepsInv(NewCall(retries), es, retries);
  }

  /** An answer after which another attempt makes sense. */
  predicate IsRetryable(e: CallEvent) {
    || e.Failure?
    || (e.Response? && e.code.Some? && e.code.value != 200 && !(400 <= e.code.value < 500))
  }

  function Starts(es: seq<CallEvent>): nat {
    if es == [] then 0 else Starts(es[..|es| - 1]) + (if es[|es| - 1].Start? then 1 else 0)
  }

  function Retryables(es: seq<CallEvent>): nat {
    if es == [] then 0 else Retryables(es[..|es| - 1]) + (if IsRetryable(es[|es| - 1]) then 1 else 0)
  }

  function Min(a: nat, b: nat): nat {
    if a <= b then a else b
  }

  /** What the done function was invoked with in a run: CANCELLED once cancelled,
      OK after a 200, an error if the last answer was final, or no retry was left
      for it, or there was no token for the next attempt. */
  function DoneAfter(retries: nat, es: seq<CallEvent>): seq<Status> {
    if es == [] then []
    else if Cancel in es then [Error(CANCELLED)]
    else
      var last := es[|es| - 1];
      if last.Response? && last.code == Some(200) then [OK]
      else if last.Start? || (IsRetryable(last) && Retryables(es) <= retries)
      then if last.token then [] else [Error(INTERNAL)]
      else [Error(INTERNAL)]
  }

  /** A call in a run, from its events alone: attempts are the start and one for
      each retryable answer as long as retries last. */
  lemma {:induction false} CallExplained(retries: nat, es: seq<CallEvent>)
    requires IsRun(NewCall(retries), es)
    ensures var c := AfterRun(NewCall(retries), es);
            && c.requestCount == Starts(es) + Min(retries, Retryables(es))
            && c.retries == retries - Min(retries, Retryables(es))
            && c.done == DoneAfter(retries, es)
            && (c.inFlight <==> Starts(es) == 1 && c.done == []) && Starts(es) <= 1
            && (c.cancelled <==> Cancel in es)
  {
    if es != [] {
      var init, last := es[..|es| - 1], es[|es| - 1];
      AfterRunSplits(NewCall(retries), es, |init|);
      var c := AfterRun(NewCall(retries), init);
      assert es[|init|..] == [last] && [last][1..] == [];
      assert AfterRun(c, [last]) == Apply(c, last) && Enabled(c, last);
      CallExplained(retries, init);
      RunKeepsInv(NewCall(retries), init, retries);
      assert es == init + [last];
      StepExplained(retries, init, last, c);
    }
  }

  lemma {:induction false} StepExplained(retries: nat, init: seq<CallEvent>, last: CallEvent, c: Call)
    requires CallInv(c, retries) && Enabled(c, last)
    requires c.requestCount == Starts(init) + Min(retries, Retryables(init))
    requires c.retries == retries - Min(retries, Retryables(init))
    requires c.done == DoneAfter(retries, init)
    requires (c.inFlight <==> Starts(init) == 1 && c.done == []) && Starts(init) <= 1
    requires c.cancelled <==> Cancel in init
    ensures var es, d := init + [last], Apply(c, last);
            && d.requestCount == Starts(es) + Min(retries, Retryables(es))
            && d.retries == retries - Min(retries, Retryables(es))
            && d.done == DoneAfter(retries, es)
            && (d.inFlight <==> Starts(es) == 1 && d.done == []) && Starts(es) <= 1
            && (d.cancelled <==> Cancel in es)
  {
    var es := init + [last];
    assert es[..|init|] == init;
    assert Starts(es) == Starts(init) + (if last.Start? then 1 else 0);
    assert Retryables(es) == Retryables(init) + (if IsRetryable(last) then 1 else 0);
  }

  lemma {:induction false} AfterRunSplits(c: Call, es: seq<CallEvent>, n: nat)
    requires n <= |es| && IsRun(c, es)
    ensures IsRun(c, es[..n]) && IsRun(AfterRun(c, es[..n]), es[n..])
    ensures AfterRun(c, es) == AfterRun(AfterRun(c, es[..n]), es[n..])
    decreases n
  {
    if n == 0 {
      assert es[..0] == [] && es[0..] == es;
    } else {
      AfterRunSplits(Apply(c, es[0]), es[1..], n - 1);
      assert es[..n][1..] == es[1..][..n - 1] && es[1..][n - 1..] == es[n..];
    }
  }

  /** A completed call can do nothing but absorb repeated cancellations. */
  lemma {:induction false} FinishedStays(c: Call, es: seq<CallEvent>, configured: nat)
    requires CallInv(c, configured) && c.done != [] && IsRun(c, es)
    ensures AfterRun(c, es) == c
    decreases |es|
  {
    if es != [] {
      FinishedStays(Apply(c, es[0]), es[1..], configured);
    }
  }

  /** Done is OK only after a response with code 200, which is the last event. */
  lemma {:induction false} OkOnlyAfter200(retries: nat, es: seq<CallEvent>)
    requires IsRun(NewCall(retries), es) && AfterRun(NewCall(retries), es).done == [OK]
    ensures es != [] && es[|es| - 1].Response? && es[|es| - 1].code == Some(200)
  {
    assert es != [];
    var n := |es| - 1;
    AfterRunSplits(NewCall(retries), es, n);
    var c := AfterRun(NewCall(retries), es[..n]);
    RunKeepsInv(NewCall(retries), es[..n], retries);
    assert es[n..] == [es[n]] && es[n..][1..] == [];
    assert Enabled(c, es[n]) && AfterRun(c, es[n..]) == Apply(c, es[n]);
    if c.done == [] {
      var d := Apply(c, es[n]).done;
      assert d[|d| - 1] == OK;
    }
  }

  /** A client error is never retried: it completes the call at once. */
  lemma ClientErrorEnds(c: Call, code: nat, token: bool, configured: nat)
    requires CallInv(c, configured) && c.inFlight && 400 <= code < 500
    ensures var c' := Apply(c, Response(Some(code), token));
            c'.requestCount == c.requestCount && c'.done == [Error(INTERNAL)] && !c'.inFlight
  {}

  // ---------------------------------------------------------------------------
  // Cancelling at any time
  // ---------------------------------------------------------------------------

  /** A run in which cancellations come whenever they like. */
  predicate IsFreeRun(c: Call, es: seq<CallEvent>)
    decreases |es|
  {
    es == [] || ((es[0].Cancel? || Enabled(c, es[0])) && IsFreeRun(Apply(c, es[0]), es[1..]))
  }

  lemma {:induction false} DoneGrows(c: Call, es: seq<CallEvent>)
    ensures |AfterRun(c, es).done| >= |c.done|
    decreases |es|
  {
    if es != [] {
      DoneGrows(Apply(c, es[0]), es[1..]);
    }
  }

  /** The done function is invoked at most once if and only if no cancellation
      comes after an uncancelled completion: the call itself does not guard
      against that one, its users have to. */
  lemma {:induction false} AtMostOnceIff(c: Call, es: seq<CallEvent>, configured: nat)
    requires CallInv(c, configured) && IsFreeRun(c, es)
    ensures |AfterRun(c, es).done| <= 1 <==> IsRun(c, es)
    decreases |es|
  {
    if es != [] {
      if Enabled(c, es[0]) {
        StepKeepsInv(c, es[0], configured);
        AtMostOnceIff(Apply(c, es[0]), es[1..], configured);
      } else {
        DoneGrows(Apply(c, es[0]), es[1..]);
      }
    }
  }

  lemma {:induction false} RunSnoc(c: Call, es: seq<CallEvent>, e: CallEvent)
    requires IsFreeRun(c, es) && (e.Cancel? || Enabled(AfterRun(c, es), e))
    ensures IsFreeRun(c, es + [e]) && AfterRun(c, es + [e]) == Apply(AfterRun(c, es), e)
    decreases |es|
  {
    if es == [] {
      assert (es + [e])[1..] == [];
    } else {
      RunSnoc(Apply(c, es[0]), es[1..], e);
      assert (es + [e])[1..] == es[1..] + [e];
    }
  }

  /** Such a cancellation is possible and completes the call a second time. */
  lemma {:induction false} LateCancelCompletesTwice(es: seq<CallEvent>)
    requires es == [Start(true), Response(Some(200), true), Cancel]
    ensures IsFreeRun(NewCall(0), es) && !IsRun(NewCall(0), es)
    ensures AfterRun(NewCall(0), es).done == [OK, Error(CANCELLED)]
  {
    var c := Apply(NewCall(0), es[0]);
    var d := Apply(c, es[1]);
    var rest, last := es[1..], es[1..][1..];
    assert rest[0] == es[1] && last[0] == Cancel && last[1..] == [];
    assert d.done == [OK] && Apply(d, Cancel).done == [OK, Error(CANCELLED)];
    assert AfterRun(d, last) == Apply(d, Cancel) && IsFreeRun(d, last) && !IsRun(d, last);
    assert AfterRun(c, rest) == AfterRun(d, last) && IsFreeRun(c, rest) && !IsRun(c, rest);
  }

  // ---------------------------------------------------------------------------
  // The factory
  // ---------------------------------------------------------------------------

  /** `active` holds the numbers of the calls in `active_calls_`. */
  datatype Factory = Factory(calls: seq<Call>, active: set<nat>, destructMode: bool)

  const NEW_FACTORY := Factory([], {}, false)

  datatype FactoryEvent =
    | Create
    | On(id: nat, event: CallEvent)
    | Destruct

  /** A call's done function takes it off the active calls, except while the
      factory is being destroyed. */
  function Deliver(f: Factory, id: nat, e: CallEvent): Factory
    requires id < |f.calls|
  {
    var c := Apply(f.calls[id], e);
    var fired := |c.done| > |f.calls[id].done|;
    f.(calls := f.calls[id := c],
       active := if fired && !f.destructMode then f.active - {id} else f.active)
  }

  function CancelAll(calls: seq<Call>, ids: set<nat>): seq<Call> {
    seq(|calls|, i requires 0 <= i < |calls| => if i in ids then OnCancel(calls[i]) else calls[i])
  }

  predicate FactoryEnabled(f: Factory, e: FactoryEvent) {
    && !f.destructMode
    && (e.On? ==> e.id < |f.calls| && Enabled(f.calls[e.id], e.event))
  }

  function FactoryStep(f: Factory, e: FactoryEvent, retries: nat): Factory
    requires FactoryEnabled(f, e)
  {
    match e
    case Create => f.(calls := f.calls + [NewCall(retries)], active := f.active + {|f.calls|})
    case On(id, event) => Deliver(f, id, event)
    case Destruct => Factory(CancelAll(f.calls, f.active), f.active, true)
  }

  lemma {:induction false} CancelOneMore(calls: seq<Call>, ids: set<nat>, id: nat)
    requires id < |calls| && id !in ids
    ensures CancelAll(calls, ids + {id}) == CancelAll(calls, ids)[id := OnCancel(CancelAll(calls, ids)[id])]
  {}

  class HttpCallFactory {
    const retries: nat
    var calls: seq<Call>
    var activeCalls: set<nat>
    var destructMode: bool
    ghost var History: seq<FactoryEvent>

    ghost function State(): Factory
      reads this
    {
      Factory(calls, activeCalls, destructMode)
    }

    /** The object is where its history takes a new factory. */
    ghost predicate Valid()
      reads this
    {
      && IsFactoryRun(NEW_FACTORY, History, retries)
      && State() == AfterFactoryRun(NEW_FACTORY, History, retries)
    }

    constructor (retries: nat)
      ensures Valid() && this.retries == retries && History == [] && State() == NEW_FACTORY
    {
      this.retries, History := retries, [];
      calls, activeCalls, destructMode := [], {}, false;
    }

    method CreateHttpCall() returns (id: nat)
      requires Valid() && !destructMode
      modifies this
      ensures Valid() && History == old(History) + [Create] && id == |old(calls)|
      ensures State() == FactoryStep(old(State()), Create, retries)
    {
      FactorySnoc(NEW_FACTORY, History, Create, retries);
      History := History + [Create];
      id := |calls|;
      calls := calls + [NewCall(retries)];
      activeCalls := activeCalls + {id};
    }

    /** Something happens to a call. */
    method OnEvent(id: nat, e: CallEvent)
      requires Valid() && FactoryEnabled(State(), On(id, e))
      modifies this
      ensures Valid() && History == old(History) + [On(id, e)]
      ensures State() == FactoryStep(old(State()), On(id, e), retries)
    {
      FactorySnoc(NEW_FACTORY, History, On(id, e), retries);
      History := History + [On(id, e)];
      DeliverTo(id, e);
    }

    /** The done function of a call that completes runs inside. */
    method DeliverTo(id: nat, e: CallEvent)
      requires id < |calls|
      modifies this`calls, this`activeCalls
      ensures State() == Deliver(old(State()), id, e)
    {
      var before := |calls[id].done|;
      calls := calls[id := Apply(calls[id], e)];
      if |calls[id].done| > before && !destructMode {
        activeCalls := activeCalls - {id};
      }
    }

    /** The destructor cancels the active calls one by one. */
    method Destroy()
      requires Valid() && !destructMode
      modifies this
      ensures Valid() && History == old(History) + [Destruct]
      ensures State() == FactoryStep(old(State()), Destruct, retries)
    {
      FactorySnoc(NEW_FACTORY, History, Destruct, retries);
      FactoryRuns(NEW_FACTORY, History, retries);
      History := History + [Destruct];
      destructMode := true;
      var left := activeCalls;
      while left != {}
        invariant destructMode && History == old(History) + [Destruct] && activeCalls == old(activeCalls) && left <= activeCalls
        invariant calls == CancelAll(old(calls), activeCalls - left)
        decreases left
      {
        var id :| id in left;
        CancelOneMore(old(calls), activeCalls - left, id);
        assert (activeCalls - left) + {id} == activeCalls - (left - {id});
        DeliverTo(id, Cancel);
        left := left - {id};
      }
      assert activeCalls - {} == activeCalls;
    }

    /** Of the object: its active calls are the unfinished ones until it is
        destroyed, after which every call was completed exactly once; and each
        call is where its own events took it. */
    lemma TracksItsCalls(id: nat)
      requires Valid()
      ensures FactoryInv(State(), retries) && |calls| == Created(History)
      ensures id < |calls| ==> calls[id] == AfterRun(NewCall(retries), OwnEvents(History, id, retries))
    {
      FactoryRuns(NEW_FACTORY, History, retries);
      CallsAreIndependent(History, retries, id);
    }
  }

  predicate IsFactoryRun(f: Factory, es: seq<FactoryEvent>, retries: nat)
    decreases |es|
  {
    es == [] ||
    (FactoryEnabled(f, es[0]) && IsFactoryRun(FactoryStep(f, es[0], retries), es[1..], retries))
  }

  function AfterFactoryRun(f: Factory, es: seq<FactoryEvent>, retries: nat): Factory
    requires IsFactoryRun(f, es, retries)
    decreases |es|
  {
    if es == [] then f else AfterFactoryRun(FactoryStep(f, es[0], retries), es[1..], retries)
  }

  /** The active calls are the created but unfinished ones, until destruction,
      after which every call there ever was is finished. */
  ghost predicate FactoryInv(f: Factory, retries: nat) {
    && (forall i :: 0 <= i < |f.calls| ==> CallInv(f.calls[i], retries))
    && (!f.destructMode ==>
          forall i: nat :: i in f.active <==> i < |f.calls| && f.calls[i].done == [])
    && (f.destructMode ==> forall i :: 0 <= i < |f.calls| ==> |f.calls[i].done| == 1)
  }

  lemma FactoryStepKeepsInv(f: Factory, e: FactoryEvent, retries: nat)
    requires FactoryInv(f, retries) && FactoryEnabled(f, e)
    ensures FactoryInv(FactoryStep(f, e, retries), retries)
  {
    if e.On? {
      StepKeepsInv(f.calls[e.id], e.event, retries);
    }
  }

  /** Over every run of a factory and all its calls. */
  lemma {:induction false} FactoryRuns(f: Factory, es: seq<FactoryEvent>, retries: nat)
    requires FactoryInv(f, retries) && IsFactoryRun(f, es, retries)
    ensures FactoryInv(AfterFactoryRun(f, es, retries), retries)
    decreases |es|
  {
    if es != [] {
      FactoryStepKeepsInv(f, es[0], retries);
      FactoryRuns(FactoryStep(f, es[0], retries), es[1..], retries);
    }
  }

  lemma {:induction false} FactorySnoc(f: Factory, es: seq<FactoryEvent>, e: FactoryEvent, retries: nat)
    requires IsFactoryRun(f, es, retries) && FactoryEnabled(AfterFactoryRun(f, es, retries), e)
    ensures IsFactoryRun(f, es + [e], retries)
    ensures AfterFactoryRun(f, es + [e], retries) == FactoryStep(AfterFactoryRun(f, es, retries), e, retries)
    decreases |es|
  {
    if es == [] {
      assert (es + [e])[1..] == [];
    } else {
      FactorySnoc(FactoryStep(f, es[0], retries), es[1..], e, retries);
      assert (es + [e])[1..] == es[1..] + [e];
    }
  }

  lemma {:induction false} FactoryLast(f: Factory, es: seq<FactoryEvent>, retries: nat)
    requires es != [] && IsFactoryRun(f, es, retries)
    ensures var init, last := es[..|es| - 1], es[|es| - 1];
            && IsFactoryRun(f, init, retries)
            && FactoryEnabled(AfterFactoryRun(f, init, retries), last)
            && AfterFactoryRun(f, es, retries) == FactoryStep(AfterFactoryRun(f, init, retries), last, retries)
    decreases |es|
  {
    var init := es[..|es| - 1];
    if init == [] {
      assert es[1..] == [];
    } else {
      FactoryLast(FactoryStep(f, es[0], retries), es[1..], retries);
      assert es[1..][..|es[1..]| - 1] == init[1..];
    }
  }

  function Created(es: seq<FactoryEvent>): nat {
    if es == [] then 0 else Created(es[..|es| - 1]) + (if es[|es| - 1].Create? then 1 else 0)
  }

  /** What of a factory's events happens to one of its calls: its own, and a
      cancellation on destruction if it is not done by then. */
  function OwnEvents(es: seq<FactoryEvent>, id: nat, retries: nat): seq<CallEvent> {
    if es == [] then []
    else
      var own, last := OwnEvents(es[..|es| - 1], id, retries), es[|es| - 1];
      if last.On? && last.id == id then own + [last.event]
      else if last.Destruct? && DoneAfter(retries, own) == [] then own + [Cancel]
      else own
  }

  /** Calls do not interfere: each is where its own events take a new call, and
      there are as many as were created. */
  lemma {:induction false} CallsAreIndependent(es: seq<FactoryEvent>, retries: nat, id: nat)
    requires IsFactoryRun(NEW_FACTORY, es, retries)
    ensures var f, own := AfterFactoryRun(NEW_FACTORY, es, retries), OwnEvents(es, id, retries);
            && |f.calls| == Created(es)
            && (id < Created(es) ==> IsRun(NewCall(retries), own) && f.calls[id] == AfterRun(NewCall(retries), own))
            && (id >= Created(es) && Destruct !in es ==> own == [])
  {
    if es != [] {
      var init, last := es[..|es| - 1], es[|es| - 1];
      FactoryLast(NEW_FACTORY, es, retries);
      CallsAreIndependent(init, retries, id);
      var f, own := AfterFactoryRun(NEW_FACTORY, init, retries), OwnEvents(init, id, retries);
      FactoryRuns(NEW_FACTORY, init, retries);
      assert es == init + [last];
      assert Destruct !in init by {
        NotDestroyed(init, retries);
      }
      if id < Created(init) {
        CallExplained(retries, own);
        OwnStep(f, own, last, retries, id);
      }
    }
  }

  lemma {:induction false} NotDestroyed(es: seq<FactoryEvent>, retries: nat)
    requires IsFactoryRun(NEW_FACTORY, es, retries)
    ensures AfterFactoryRun(NEW_FACTORY, es, retries).destructMode <==> Destruct in es
  {
    if es != [] {
      var init, last := es[..|es| - 1], es[|es| - 1];
      FactoryLast(NEW_FACTORY, es, retries);
      NotDestroyed(init, retries);
      assert es == init + [last];
    }
  }

  lemma {:induction false} OwnStep(f: Factory, own: seq<CallEvent>, e: FactoryEvent, retries: nat, id: nat)
    requires FactoryEnabled(f, e) && FactoryInv(f, retries) && id < |f.calls|
    requires IsRun(NewCall(retries), own) && f.calls[id] == AfterRun(NewCall(retries), own)
    ensures var own' := if e.On? && e.id == id then own + [e.event]
                        else if e.Destruct? && f.calls[id].done == [] then own + [Cancel]
                        else own;
            && IsRun(NewCall(retries), own')
            && FactoryStep(f, e, retries).calls[id] == AfterRun(NewCall(retries), own')
  {
    if e.On? && e.id == id {
      StrictRunSnoc(NewCall(retries), own, e.event);
    } else if e.Destruct? && f.calls[id].done == [] {
      StrictRunSnoc(NewCall(retries), own, Cancel);
    }
  }

  lemma {:induction false} StrictRunSnoc(c: Call, es: seq<CallEvent>, e: CallEvent)
    requires IsRun(c, es) && Enabled(AfterRun(c, es), e)
    ensures IsRun(c, es + [e]) && AfterRun(c, es + [e]) == Apply(AfterRun(c, es), e)
    decreases |es|
  {
    if es == [] {
      assert (es + [e])[1..] == [];
    } else {
      StrictRunSnoc(Apply(c, es[0]), es[1..], e);
      assert (es + [e])[1..] == es[1..] + [e];
    }
  }
}
