/** The filter and handler objects of a request, updated in place and calling
    each other.  Together they take the steps of module ServiceControl, so that
    they are always where some run of it ends, and what holds of every run holds
    of the objects. */
module ServiceControlFilters {

  import opened Wrappers
  import opened HttpCalls
  import opened Reports
  import SC = ServiceControl

  /** The state of a request, as its objects hold it. */
  ghost function View(f: ServiceControlFilter, h: ServiceControlHandlerImpl): SC.Request
    reads f, h, h.call
  {
    SC.Request(f.state, f.stopped, f.allowed, f.denied,
               h.checkStatus, h.cancelFn, h.onCheckDoneCalled,
               if h.call == null then None else Some(h.call.State()), f.trace)
  }

  /** `History` is what reached the handler, from the headers on. */
  class ServiceControlFilter {
    var state: SC.FilterState
    var stopped: bool
    var allowed: nat
    var denied: nat
    var handler: ServiceControlHandlerImpl?
    var trace: seq<SC.Effect>
    ghost var History: seq<SC.Event>

    ghost predicate Valid()
      reads this, handler, if handler == null then {} else {handler.call, handler.reporter}
    {
      if handler == null then
        && History == [] && trace == []
        && state == SC.Init && !stopped && allowed == denied == 0
      else
        && handler.Valid()
        && History != [] && History[0].Headers?
        && SC.Reached(handler.cfg, History, View(this, handler))
    }

    constructor ()
      ensures Valid() && handler == null
    {
      History := [];
      state, stopped, allowed, denied, handler, trace := SC.Init, false, 0, 0, null, [];
    }

    method Emit(e: SC.Effect)
      modifies this`trace
      ensures trace == old(trace) + [e]
    {
      trace := trace + [e];
    }

    method OnCheckDone(status: Status, ghost h: ServiceControlHandlerImpl)
      modifies this`state, this`allowed, this`denied, this`trace
      ensures View(this, h) == SC.CheckDone(old(View(this, h)), status)
    {
      if status.Error? {
        RejectRequest(status.code);
        return;
      }
      allowed := allowed + 1;
      state := SC.Complete;
      if stopped {
        Emit(SC.DecodingContinued);
      }
    }

    method RejectRequest(code: Code)
      modifies this`state, this`denied, this`trace
      ensures state == SC.Responded && denied == old(denied) + 1
      ensures trace == old(trace) + [SC.LocalReply(code)]
    {
      denied := denied + 1;
      state := SC.Responded;
      Emit(SC.LocalReply(code));
    }

    /** Returns whether filter iteration continues. */
    method DecodeHeaders(cfg: SC.Config, isGrpc: bool, intervalMs: int, hasOperation: bool, now: int,
                         path: SC.CheckPath, quota: Status) returns (continues: bool)
      requires Valid() && handler == null
      modifies this
      ensures Valid() && History == [SC.Headers(path, quota)]
      ensures handler != null && fresh(handler) && handler.cfg == cfg
      ensures fresh(handler.reporter) && (handler.call == null || fresh(handler.call))
      ensures handler.reporter.Opened() == Open(isGrpc, intervalMs, hasOperation, cfg.hasApiKey, now)
      ensures handler.reporter.History == [] && !handler.reporter.Closed
      ensures continues <==> state == SC.Complete
    {
      var h := new ServiceControlHandlerImpl(cfg, isGrpc, intervalMs, hasOperation, now);
      handler := h;
      continues := CallHandler(h, path, quota);
      SC.ReachedFirst(cfg, path, quota);
      History := [SC.Headers(path, quota)];
    }

    method CallHandler(h: ServiceControlHandlerImpl, path: SC.CheckPath, quota: Status) returns (continues: bool)
      requires h.Valid() && View(this, h) == SC.NEW_REQUEST
      modifies h, this`state, this`stopped, this`allowed, this`denied, this`trace
      ensures h.Valid() && (h.call == null || fresh(h.call))
      ensures View(this, h) == SC.DecodeHeaders(h.cfg, SC.NEW_REQUEST, path, quota)
      ensures continues <==> state == SC.Complete
    {
      state := SC.Calling;
      stopped := false;
      assert View(this, h) == SC.NEW_REQUEST.(state := SC.Calling, stopped := false);
      h.CallCheck(this, path, quota);
      continues := FinishHeaders(h);
    }

    method FinishHeaders(ghost h: ServiceControlHandlerImpl) returns (continues: bool)
      modifies this`stopped, this`trace
      ensures continues <==> state == SC.Complete
      ensures View(this, h) == if continues then SC.Emit(old(View(this, h)), SC.HeadersContinued)
                               else old(View(this, h)).(stopped := true)
    {
      if state == SC.Complete {
        Emit(SC.HeadersContinued);
        return true;
      }
      stopped := true;
      return false;
    }

    /** The remote check call gets a reply. */
    method OnCheckReply(code: Option<nat>, body: Option<Status>, token: bool, quota: Status)
      requires Valid() && handler != null
      requires SC.EventEnabled(View(this, handler), SC.CheckReply(code, body, token, quota))
      modifies this, handler, handler.call
      ensures Valid() && handler == old(handler) && handler.call == old(handler.call)
      ensures History == old(History) + [SC.CheckReply(code, body, token, quota)]
    {
      SC.ReachedSnoc(handler.cfg, History, View(this, handler), SC.CheckReply(code, body, token, quota));
      handler.OnCallEvent(this, Response(code, token), body, quota);
      History := History + [SC.CheckReply(code, body, token, quota)];
    }

    /** Or it fails. */
    method OnCheckFailure(token: bool, quota: Status)
      requires Valid() && handler != null
      requires SC.EventEnabled(View(this, handler), SC.CheckFailure(token, quota))
      modifies this, handler, handler.call
      ensures Valid() && handler == old(handler) && handler.call == old(handler.call)
      ensures History == old(History) + [SC.CheckFailure(token, quota)]
    {
      SC.ReachedSnoc(handler.cfg, History, View(this, handler), SC.CheckFailure(token, quota));
      handler.OnCallEvent(this, Failure(token), None, quota);
      History := History + [SC.CheckFailure(token, quota)];
    }

    /** Data is held back exactly while the headers were seen and no outcome was
        emitted; data that is not the last may be reported on the way. */
    method DecodeData(endStream: bool, length: nat, now: int) returns (stop: bool)
      requires Valid()
      requires !endStream && length > 0 ==>
                 && handler != null && !handler.reporter.Closed
                 && (handler.reporter.isGrpc ==> handler.cfg.configured)
      modifies if handler == null then {} else {handler.reporter}
      ensures Valid()
      ensures stop <==> SC.HeadersSeen(History) && SC.Outcomes(trace) == 0
      ensures stop ==> handler != null && handler.cancelFn && handler.call != null && handler.call.inFlight
      ensures handler != null && !old(handler.reporter.Closed) ==>
                && !handler.reporter.Closed
                && handler.reporter.History ==
                   old(handler.reporter.History) + (if !endStream && length > 0 then [DataAt(now)] else [])
    {
      HeldBack();
      if !endStream && length > 0 {
        handler.reporter.TryIntermediateReport(now);
      }
      stop := state == SC.Calling;
    }

    method OnDestroy(quota: Status)
      requires Valid()
      modifies this, handler, if handler == null then {} else {handler.call}
      ensures Valid() && handler == old(handler)
      ensures handler != null ==> History == old(History) + [SC.Destroy(quota)] && !handler.cancelFn
    {
      if handler != null {
        SC.ReachedSnoc(handler.cfg, History, View(this, handler), SC.Destroy(quota));
        handler.OnDestroy(this, quota);
        History := History + [SC.Destroy(quota)];
      }
    }

    lemma HeldBack()
      requires Valid()
      ensures state == SC.Calling <==> SC.HeadersSeen(History) && SC.Outcomes(trace) == 0
      ensures state == SC.Calling ==>
                handler != null && handler.cancelFn && handler.call != null && handler.call.inFlight
    {
      if handler != null {
        SC.HeldBackUntilOutcome(handler.cfg, History);
        SC.OneOutcome(handler.cfg, History);
        SC.CancelOnlyUnfinished(handler.cfg, History);
        SC.RunsKeepInv(handler.cfg, SC.NEW_REQUEST, History);
      }
    }

    /** One outcome per request, counted once; and a request let through has the
        reasons for it. */
    lemma OneJustifiedOutcome()
      requires Valid()
      ensures SC.Outcomes(trace) == allowed + denied <= 1
      ensures allowed == (if state == SC.Complete then 1 else 0)
      ensures denied == (if state == SC.Responded then 1 else 0)
      ensures state == SC.Complete ==> handler != null && SC.Justified(handler.cfg, trace)
      ensures handler != null ==> SC.QuotaAfterCheck(handler.cfg, trace)
                                  && SC.TraceInv(handler.cfg, View(this, handler))
                                  && SC.FollowsSettings(handler.cfg, View(this, handler))
    {
      if handler != null {
        SC.OneOutcome(handler.cfg, History);
        SC.CompleteIsJustified(handler.cfg, History);
        SC.RunsKeepInv(handler.cfg, SC.NEW_REQUEST, History);
        SC.EveryRunExplained(handler.cfg, History);
        SC.EveryRunFollowsSettings(handler.cfg, History);
      }
    }

    /** The handler can cancel exactly while its check call is unfinished, and so
        the call object never sees the cancellation that would complete it
        twice. */
    lemma CallNeverCompletesTwice()
      requires Valid() && handler != null
      ensures handler.cancelFn <==> handler.call != null && handler.call.done == []
      ensures handler.call != null ==>
                |handler.call.done| <= 1 && IsRun(NewCall(handler.cfg.checkRetries), handler.call.History)
    {
      SC.CancelOnlyUnfinished(handler.cfg, History);
      if handler.call != null {
        handler.call.CompletesOnce();
      }
    }
  }

  class ServiceControlHandlerImpl {
    const cfg: SC.Config
    var checkStatus: Status
    var cancelFn: bool
    var onCheckDoneCalled: bool
    var call: HttpCallImpl?
    const reporter: ReportingHandler

    ghost predicate Valid()
      reads this, call, reporter
    {
      && (call != null ==> call.Valid() && call.configured == cfg.checkRetries)
      && (cancelFn ==> call != null)
      && reporter.Valid()
    }

    constructor (cfg: SC.Config, isGrpc: bool, intervalMs: int, hasOperation: bool, now: int)
      ensures Valid() && fresh(reporter) && !reporter.Closed && reporter.History == []
      ensures reporter.Opened() == Open(isGrpc, intervalMs, hasOperation, cfg.hasApiKey, now)
      ensures this.cfg == cfg && checkStatus == OK && !cancelFn && !onCheckDoneCalled && call == null
    {
      this.cfg := cfg;
      reporter := new ReportingHandler(isGrpc, intervalMs, hasOperation, cfg.hasApiKey, now);
      checkStatus, cancelFn, onCheckDoneCalled, call := OK, false, false, null;
    }

    method CallCheck(callback: ServiceControlFilter, path: SC.CheckPath, quota: Status)
      requires Valid()
      modifies this, callback`state, callback`allowed, callback`denied, callback`trace
      ensures Valid()
      ensures call == old(call) || (call != null && fresh(call))
      ensures View(callback, this) == SC.CallCheck(cfg, old(View(callback, this)), path, quota)
    {
      if !cfg.configured {
        callback.OnCheckDone(Error(NOT_FOUND), this);
        return;
      }
      if cfg.allowWithoutApiKey || cfg.skipServiceControl {
        CallQuota(callback, quota);
        return;
      }
      if !cfg.hasApiKey {
        checkStatus := Error(UNAUTHENTICATED);
        callback.OnCheckDone(checkStatus, this);
        return;
      }
      MakeCheckCall(callback, path, quota);
    }

    method MakeCheckCall(callback: ServiceControlFilter, path: SC.CheckPath, quota: Status)
      requires Valid()
      modifies this, callback`state, callback`allowed, callback`denied, callback`trace
      ensures Valid()
      ensures call == old(call) || (call != null && fresh(call))
      ensures View(callback, this) == SC.MakeCheckCall(cfg, old(View(callback, this)), path, quota)
    {
      onCheckDoneCalled := false;
      callback.Emit(SC.CheckCalled);
      assert View(callback, this) ==
             SC.Emit(old(View(callback, this)).(onCheckDoneCalled := false), SC.CheckCalled);
      var cancel := ClientCheck(callback, path, quota);
      KeepCancel(cancel, callback);
    }

    /** The cancel function is of no use if the callback has already run. */
    method KeepCancel(cancel: bool, ghost callback: ServiceControlFilter)
      modifies this`cancelFn
      ensures View(callback, this) ==
              old(View(callback, this)).(cancelFn := cancel && !onCheckDoneCalled)
    {
      cancelFn := cancel;
      if onCheckDoneCalled {
        cancelFn := false;
      }
    }

    /** The client: answers from its cache, or makes a remote call that can be
        cancelled. */
    method ClientCheck(callback: ServiceControlFilter, path: SC.CheckPath, quota: Status)
      returns (cancel: bool)
      requires Valid()
      modifies this, callback`state, callback`allowed, callback`denied, callback`trace
      ensures Valid() && cancel == path.Remote?
      ensures call == old(call) || (call != null && fresh(call))
      ensures View(callback, this) ==
              match path
              case Cached(answer) => SC.CheckResponse(cfg, old(View(callback, this)), answer, quota)
              case Remote(token) =>
                SC.CallEvents(cfg, old(View(callback, this)).(call := Some(NewCall(cfg.checkRetries))),
                              Start(token), None, quota)
    {
      match path
      case Cached(answer) =>
        OnCheckDoneLambda(callback, answer, quota);
        cancel := false;
      case Remote(token) =>
        var c := new HttpCallImpl(cfg.checkRetries);
        call := c;
        c.OnEvent(Start(token));
        if c.done != [] {
          OnCheckDoneLambda(callback, SC.ClientAnswer(cfg, c.done[|c.done| - 1], None), quota);
        }
        cancel := true;
    }

    /** The callback given to the client. */
    method OnCheckDoneLambda(callback: ServiceControlFilter, answer: Status, quota: Status)
      modifies this`cancelFn, this`onCheckDoneCalled, this`checkStatus,
               callback`state, callback`allowed, callback`denied, callback`trace
      ensures View(callback, this) == SC.CheckResponse(cfg, old(View(callback, this)), answer, quota)
    {
      cancelFn := false;
      onCheckDoneCalled := true;
      callback.Emit(SC.CheckAnswered(answer));
      checkStatus := answer;
      if checkStatus.Error? {
        callback.OnCheckDone(checkStatus, this);
        return;
      }
      CallQuota(callback, quota);
    }

    method CallQuota(callback: ServiceControlFilter, quota: Status)
      modifies this`checkStatus, callback`state, callback`allowed, callback`denied, callback`trace
      ensures View(callback, this) == SC.CallQuota(cfg, old(View(callback, this)), quota)
    {
      if cfg.skipServiceControl || !cfg.hasMetricCosts {
        callback.OnCheckDone(checkStatus, this);
        return;
      }
      callback.Emit(SC.QuotaCalled);
      callback.Emit(SC.QuotaAnswered(quota));
      checkStatus := quota;
      callback.OnCheckDone(quota, this);
    }

    /** The remote check call gets a reply, fails or is cancelled. */
    method OnCallEvent(callback: ServiceControlFilter, e: CallEvent, body: Option<Status>, quota: Status)
      requires Valid() && call != null && (e.Cancel? || Enabled(call.State(), e))
      modifies this`cancelFn, this`onCheckDoneCalled, this`checkStatus, call,
               callback`state, callback`allowed, callback`denied, callback`trace
      ensures Valid() && call == old(call)
      ensures View(callback, this) == SC.CallEvents(cfg, old(View(callback, this)), e, body, quota)
    {
      var before := |call.done|;
      call.OnEvent(e);
      assert View(callback, this) == old(View(callback, this)).(call := Some(Apply(old(call.State()), e)));
      if |call.done| > before {
        OnCheckDoneLambda(callback, SC.ClientAnswer(cfg, call.done[|call.done| - 1], body), quota);
      }
    }

    method OnDestroy(callback: ServiceControlFilter, quota: Status)
      requires Valid()
      modifies this`cancelFn, this`onCheckDoneCalled, this`checkStatus, call,
               callback`state, callback`allowed, callback`denied, callback`trace
      ensures Valid() && call == old(call)
      ensures View(callback, this) == SC.OnDestroy(cfg, old(View(callback, this)), quota)
    {
      if cancelFn {
        OnCallEvent(callback, Cancel, None, quota);
        cancelFn := false;
      }
    }
  }
}
