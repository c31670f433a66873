/** Reports to service control: which metrics and log entries each report of a
    request carries (src/api_proxy/service_control/request_builder.cc) and when
    a streaming request sends one
    (src/envoy/http/service_control/handler_impl.cc).  Setting a metric's value
    is abstracted to naming the metric. */
module Reports {

  datatype Tag = START | INTERMEDIATE | FINAL
  datatype Mark = PRODUCER | CONSUMER | PRODUCER_BY_CONSUMER

  /** A supported metric; `settable` is a non-null setter. */
  datatype Metric = Metric(name: string, tag: Tag, mark: Mark, settable: bool)

  /** What of a report's information decides its contents. */
  datatype ReportInfo = ReportInfo(
    hasOperation: bool,
    hasApiKey: bool,
    hasConsumerProject: bool,
    isFirst: bool,
    isFinal: bool)

  datatype Operation = Operation(metrics: seq<Metric>, logs: seq<string>)

  // ---------------------------------------------------------------------------
  // One report
  // ---------------------------------------------------------------------------

  /** Start metrics go into the first report, final ones into the final report,
      intermediate ones into every report. */
  predicate Due(m: Metric, info: ReportInfo) {
    match m.tag
    case START => info.isFirst
    case FINAL => info.isFinal
    case INTERMEDIATE => true
  }

  predicate InMain(m: Metric, info: ReportInfo) {
    && info.hasOperation && m.settable && m.mark != PRODUCER_BY_CONSUMER
    && (info.hasApiKey || m.mark != CONSUMER) && Due(m, info)
  }

  predicate InByConsumer(m: Metric, info: ReportInfo) {
    info.hasOperation && m.settable && m.mark == PRODUCER_BY_CONSUMER && Due(m, info)
  }

  function MainMetrics(metrics: seq<Metric>, info: ReportInfo): seq<Metric> {
    if metrics == [] then []
    else
      MainMetrics(metrics[..|metrics| - 1], info)
      + (if InMain(metrics[|metrics| - 1], info) then [metrics[|metrics| - 1]] else [])
  }

  function ByConsumerMetrics(metrics: seq<Metric>, info: ReportInfo): seq<Metric> {
    if metrics == [] then []
    else
      ByConsumerMetrics(metrics[..|metrics| - 1], info)
      + (if InByConsumer(metrics[|metrics| - 1], info) then [metrics[|metrics| - 1]] else [])
  }

  function Operations(metrics: seq<Metric>, logs: seq<string>, info: ReportInfo): seq<Operation> {
    [Operation(MainMetrics(metrics, info), if info.isFinal then logs else [])]
    + (if info.hasConsumerProject then [Operation(ByConsumerMetrics(metrics, info), [])] else [])
  }

  /** The guard both loops of the source share. */
  predicate TagAllows(m: Metric, info: ReportInfo) {
    || (info.isFirst && m.tag == START)
    || (info.isFinal && (m.tag == FINAL || m.tag == INTERMEDIATE))
    || (!info.isFinal && m.tag == INTERMEDIATE)
  }

  method FillReportRequest(metrics: seq<Metric>, logs: seq<string>, info: ReportInfo)
    returns (operations: seq<Operation>)
    ensures operations == Operations(metrics, logs, info)
  {
    var chosen: seq<Metric> := [];
    if info.hasOperation {
      var sendConsumerMetric := info.hasApiKey;
      for i := 0 to |metrics|
        invariant chosen == MainMetrics(metrics[..i], info)
      {
        var m := metrics[i];
        if sendConsumerMetric || m.mark != CONSUMER {
          if m.settable && m.mark != PRODUCER_BY_CONSUMER {
            if TagAllows(m, info) {
              chosen := chosen + [m];
            }
          }
        }
        assert metrics[..i + 1][..i] == metrics[..i];
      }
      assert metrics[..|metrics|] == metrics;
    } else {
      NothingWithoutOperation(metrics, info);
    }
    var entries: seq<string> := [];
    if info.isFinal {
      for i := 0 to |logs|
        invariant entries == logs[..i]
      {
        entries := entries + [logs[i]];
      }
    }
    assert entries == if info.isFinal then logs else [];
    operations := [Operation(chosen, entries)];
    assert operations + [] == operations;
    if info.hasConsumerProject {
      operations := AppendByConsumerOperations(metrics, info, operations);
    }
  }

  method AppendByConsumerOperations(metrics: seq<Metric>, info: ReportInfo, sofar: seq<Operation>)
    returns (operations: seq<Operation>)
    ensures operations == sofar + [Operation(ByConsumerMetrics(metrics, info), [])]
  {
    var chosen: seq<Metric> := [];
    if info.hasOperation {
      for i := 0 to |metrics|
        invariant chosen == ByConsumerMetrics(metrics[..i], info)
      {
        var m := metrics[i];
        if m.settable && m.mark == PRODUCER_BY_CONSUMER {
          if TagAllows(m, info) {
            chosen := chosen + [m];
          }
        }
        assert metrics[..i + 1][..i] == metrics[..i];
      }
      assert metrics[..|metrics|] == metrics;
    } else {
      NothingWithoutOperation(metrics, info);
    }
    operations := sofar + [Operation(chosen, [])];
  }

  lemma {:induction false} NothingWithoutOperation(metrics: seq<Metric>, info: ReportInfo)
    requires !info.hasOperation
    ensures MainMetrics(metrics, info) == [] && ByConsumerMetrics(metrics, info) == []
  {
    if metrics != [] {
      NothingWithoutOperation(metrics[..|metrics| - 1], info);
    }
  }

  /** How often a metric occurs. */
  function Times(m: Metric, ms: seq<Metric>): nat {
    if ms == [] then 0 else Times(m, ms[..|ms| - 1]) + (if ms[|ms| - 1] == m then 1 else 0)
  }

  lemma {:induction false} TimesAppend(m: Metric, ms: seq<Metric>, last: Metric)
    ensures Times(m, ms + [last]) == Times(m, ms) + (if last == m then 1 else 0)
  {
    assert (ms + [last])[..|ms|] == ms;
  }

  /** How often a metric occurs in all operations of a report. */
  function TimesInReport(m: Metric, metrics: seq<Metric>, info: ReportInfo): nat {
    var ops := Operations(metrics, [], info);
    Times(m, ops[0].metrics) + (if |ops| > 1 then Times(m, ops[1].metrics) else 0)
  }

  lemma {:induction false} ChosenAppend(metrics: seq<Metric>, last: Metric, info: ReportInfo)
    ensures MainMetrics(metrics + [last], info) ==
            MainMetrics(metrics, info) + (if InMain(last, info) then [last] else [])
    ensures ByConsumerMetrics(metrics + [last], info) ==
            ByConsumerMetrics(metrics, info) + (if InByConsumer(last, info) then [last] else [])
  {
    assert (metrics + [last])[..|metrics|] == metrics;
  }

  /** Metrics keep their order. */
  lemma {:induction false} ChosenInOrder(front: seq<Metric>, back: seq<Metric>, info: ReportInfo)
    ensures MainMetrics(front + back, info) == MainMetrics(front, info) + MainMetrics(back, info)
    ensures ByConsumerMetrics(front + back, info) == ByConsumerMetrics(front, info) + ByConsumerMetrics(back, info)
  {
    if back == [] {
      assert front + back == front;
    } else {
      var init, last := back[..|back| - 1], back[|back| - 1];
      ChosenInOrder(front, init, info);
      MetricsRegroup(front, init, [last]);
      assert back == init + [last];
      ChosenAppend(front + init, last, info);
      ChosenAppend(init, last, info);
      MetricsRegroup(MainMetrics(front, info), MainMetrics(init, info),
                     if InMain(last, info) then [last] else []);
      MetricsRegroup(ByConsumerMetrics(front, info), ByConsumerMetrics(init, info),
                     if InByConsumer(last, info) then [last] else []);
    }
  }

  lemma MetricsRegroup(a: seq<Metric>, b: seq<Metric>, c: seq<Metric>)
    ensures (a + b) + c == a + (b + c)
  {}

  lemma {:induction false} TimesIfChosen(m: Metric, ms: seq<Metric>, last: Metric, chosen: bool)
    ensures Times(m, ms + (if chosen then [last] else [])) == Times(m, ms) + (if chosen && last == m then 1 else 0)
  {
    if chosen {
      TimesAppend(m, ms, last);
    } else {
      assert ms + [] == ms;
    }
  }

  lemma {:induction false} TimesChosen(m: Metric, metrics: seq<Metric>, info: ReportInfo)
    ensures Times(m, MainMetrics(metrics, info)) == if InMain(m, info) then Times(m, metrics) else 0
    ensures Times(m, ByConsumerMetrics(metrics, info)) == if InByConsumer(m, info) then Times(m, metrics) else 0
  {
    if metrics != [] {
      var init, last := metrics[..|metrics| - 1], metrics[|metrics| - 1];
      TimesChosen(m, init, info);
      assert metrics == init + [last];
      ChosenAppend(init, last, info);
      TimesAppend(m, init, last);
      TimesIfChosen(m, MainMetrics(init, info), last, InMain(last, info));
      TimesIfChosen(m, ByConsumerMetrics(init, info), last, InByConsumer(last, info));
    }
  }

  /** What a metric needs of a report's information: nothing for the producer's, a
      usable key for the consumer's, a consumer project for the producer's by
      consumer. */
  predicate ReportedWith(m: Metric, info: ReportInfo) {
    match m.mark
    case PRODUCER => true
    case CONSUMER => info.hasApiKey
    case PRODUCER_BY_CONSUMER => info.hasConsumerProject
  }

  /** The contents of a report.  A settable metric is in it as often as it is
      supported, provided the operation is known, its mark gets what it needs, a
      start metric waits for a first report and a final one for a final report.
      The metrics by consumer have an operation of their own. */
  lemma {:induction false} ReportContents(m: Metric, metrics: seq<Metric>, logs: seq<string>, info: ReportInfo)
    ensures var ops := Operations(metrics, logs, info);
            var due := (m.tag == START ==> info.isFirst) && (m.tag == FINAL ==> info.isFinal);
            var times := if info.hasOperation && m.settable && due && ReportedWith(m, info)
                         then Times(m, metrics) else 0;
            && |ops| == (if info.hasConsumerProject then 2 else 1)
            && Times(m, ops[0].metrics) == (if m.mark == PRODUCER_BY_CONSUMER then 0 else times)
            && ops[0].logs == (if info.isFinal then logs else [])
            && (|ops| == 2 ==> && Times(m, ops[1].metrics) == (if m.mark == PRODUCER_BY_CONSUMER then times else 0)
                               && ops[1].logs == [])
            && TimesInReport(m, metrics, info) == times
  {
    TimesChosen(m, metrics, info);
  }

  // ---------------------------------------------------------------------------
  // The reports of one request
  // ---------------------------------------------------------------------------

  const NS_PER_MS := 1_000_000

  /** `duration_cast` rounds toward zero. */
  function ToMilliseconds(ns: int): int {
    if ns >= 0 then ns / NS_PER_MS else -((-ns) / NS_PER_MS)
  }

  /** The handler's reporting state; times are in nanoseconds. */
  datatype Stream = Stream(
    isGrpc: bool,
    intervalMs: int,
    hasOperation: bool,
    hasApiKey: bool,
    keyUsable: bool,
    hasConsumerProject: bool,
    isFirst: bool,
    lastReported: int,
    reports: seq<ReportInfo>)

  /** Data arrives at a clock reading, or a check answer tells about the key and
      the consumer. */
  datatype StreamEvent =
    | DataAt(now: int)
    | CheckInfo(keyUsable: bool, hasProject: bool)

  function Open(isGrpc: bool, intervalMs: int, hasOperation: bool, hasApiKey: bool, now: int): Stream {
    Stream(isGrpc, intervalMs, hasOperation, hasApiKey, true, false, true, now, [])
  }

  function Info(s: Stream, isFinal: bool): ReportInfo {
    ReportInfo(s.hasOperation, s.hasApiKey && s.keyUsable, s.hasConsumerProject, s.isFirst, isFinal)
  }

  predicate ReportsAt(s: Stream, now: int) {
    s.isGrpc && ToMilliseconds(now - s.lastReported) >= s.intervalMs
  }

  function OnStream(s: Stream, e: StreamEvent): Stream {
    match e
    case DataAt(now) =>
      if !ReportsAt(s, now) then s
      else s.(reports := s.reports + [Info(s, false)], lastReported := now, isFirst := false)
    case CheckInfo(keyUsable, hasProject) =>
      s.(keyUsable := keyUsable, hasConsumerProject := hasProject)
  }

  function OnAll(s: Stream, es: seq<StreamEvent>): Stream
    decreases |es|
  {
    if es == [] then s else OnAll(OnStream(s, es[0]), es[1..])
  }

  /** The final report closes the stream. */
  function AllReports(s: Stream, es: seq<StreamEvent>): seq<ReportInfo> {
    var s' := OnAll(s, es);
    s'.reports + [Info(s', true)]
  }

  /** The reporting part of the handler.  `History` is what happened to it since
      it was `Opened`, up to the final report. */
  class ReportingHandler {
    const isGrpc: bool
    const intervalMs: int
    const hasOperation: bool
    const hasApiKey: bool
    var keyUsable: bool
    var hasConsumerProject: bool
    var isFirstReport: bool
    var lastReported: int
    var reports: seq<ReportInfo>
    ghost const OpenedAt: int
    ghost var History: seq<StreamEvent>
    ghost var Closed: bool

    ghost function State(): Stream
      reads this
    {
      Stream(isGrpc, intervalMs, hasOperation, hasApiKey, keyUsable, hasConsumerProject,
             isFirstReport, lastReported, reports)
    }

    ghost function Opened(): Stream {
      Open(isGrpc, intervalMs, hasOperation, hasApiKey, OpenedAt)
    }

    ghost predicate Valid()
      reads this
    {
      if Closed then reports == AllReports(Opened(), History) else State() == OnAll(Opened(), History)
    }

    constructor (isGrpc: bool, intervalMs: int, hasOperation: bool, hasApiKey: bool, now: int)
      ensures Valid() && !Closed && History == []
      ensures State() == Opened() == Open(isGrpc, intervalMs, hasOperation, hasApiKey, now)
    {
      OpenedAt, History, Closed := now, [], false;
      this.isGrpc, this.intervalMs, this.hasOperation := isGrpc, intervalMs, hasOperation;
      this.hasApiKey, keyUsable, hasConsumerProject := hasApiKey, true, false;
      isFirstReport, lastReported, reports := true, now, [];
    }

    method OnCheckInfo(keyUsable: bool, hasProject: bool)
      requires Valid() && !Closed
      modifies this
      ensures Valid() && !Closed && History == old(History) + [CheckInfo(keyUsable, hasProject)]
      ensures State() == OnStream(old(State()), CheckInfo(keyUsable, hasProject))
    {
      OnAllSnoc(Opened(), History, CheckInfo(keyUsable, hasProject));
      History := History + [CheckInfo(keyUsable, hasProject)];
      this.keyUsable := keyUsable;
      hasConsumerProject := hasProject;
    }

    method TryIntermediateReport(now: int)
      requires Valid() && !Closed
      modifies this
      ensures Valid() && !Closed && History == old(History) + [DataAt(now)]
      ensures State() == OnStream(old(State()), DataAt(now))
    {
      OnAllSnoc(Opened(), History, DataAt(now));
      History := History + [DataAt(now)];
      if !isGrpc {
        return;
      }
      if ToMilliseconds(now - lastReported) < intervalMs {
        return;
      }
      reports := reports +
                 [ReportInfo(hasOperation, hasApiKey && keyUsable, hasConsumerProject, isFirstReport, false)];
      lastReported := now;
      isFirstReport := false;
    }

    /** The final report; the handler's own state stays as it is. */
    method CallReport()
      requires Valid() && !Closed
      modifies this`reports, this`Closed
      ensures Valid() && Closed
      ensures reports == old(reports) + [Info(old(State()), true)]
    {
      Closed := true;
      reports := reports +
                 [ReportInfo(hasOperation, hasApiKey && keyUsable, hasConsumerProject, isFirstReport, true)];
    }

    /** Of the object, once closed: its reports are those its history calls for,
        and each metric is in them as often as the whole stream should have it. */
    lemma Conserves(m: Metric, metrics: seq<Metric>)
      requires Valid() && Closed
      ensures reports == ReportsOf(isGrpc, intervalMs, hasOperation, hasApiKey, OpenedAt, History)
                         + [InfoAfter(hasOperation, hasApiKey, History, |reports| == 1, true)]
      ensures forall i :: 0 <= i < |reports| ==>
                TimesInReport(m, metrics, reports[i]) == TimesDue(m, metrics, reports, i)
      ensures m.tag == START ==> TimesInReports(m, metrics, reports) == TimesDue(m, metrics, reports, 0)
      ensures m.tag == FINAL ==>
                TimesInReports(m, metrics, reports) == TimesDue(m, metrics, reports, |reports| - 1)
    {
      StreamReports(isGrpc, intervalMs, hasOperation, hasApiKey, OpenedAt, History);
      MetricOverStream(m, metrics, isGrpc, intervalMs, hasOperation, hasApiKey, OpenedAt, History);
    }
  }

  lemma {:induction false} OnAllSnoc(s: Stream, es: seq<StreamEvent>, e: StreamEvent)
    ensures OnAll(s, es + [e]) == OnStream(OnAll(s, es), e)
    decreases |es|
  {
    if es == [] {
      assert (es + [e])[1..] == [];
    } else {
      OnAllSnoc(OnStream(s, es[0]), es[1..], e);
      assert (es + [e])[1..] == es[1..] + [e];
    }
  }

  /** Before the final report: none is final, and the first flag is up until the
      first report has been sent and only in that one. */
  ghost predicate StreamInv(s: Stream, hasOperation: bool) {
    && s.hasOperation == hasOperation
    && (s.isFirst <==> s.reports == [])
    && (forall i :: 0 <= i < |s.reports| ==>
          && s.reports[i].hasOperation == hasOperation && !s.reports[i].isFinal
          && (s.reports[i].isFirst <==> i == 0))
  }

  lemma {:induction false} StreamKeepsInv(s: Stream, es: seq<StreamEvent>, hasOperation: bool)
    requires StreamInv(s, hasOperation)
    ensures StreamInv(OnAll(s, es), hasOperation)
    decreases |es|
  {
    if es != [] {
      StreamKeepsInv(OnStream(s, es[0]), es[1..], hasOperation);
    }
  }

  /** Whatever happens in between, exactly the first report is marked first and
      exactly the last is marked final. */
  lemma FirstAndFinal(isGrpc: bool, interval: int, op: bool, key: bool, now: int, es: seq<StreamEvent>)
    ensures var rs := AllReports(Open(isGrpc, interval, op, key, now), es);
            && rs != []
            && forall i :: 0 <= i < |rs| ==>
                 && rs[i].hasOperation == op
                 && (rs[i].isFirst <==> i == 0) && (rs[i].isFinal <==> i == |rs| - 1)
  {
    StreamKeepsInv(Open(isGrpc, interval, op, key, now), es, op);
  }

  function TimesInReports(m: Metric, metrics: seq<Metric>, rs: seq<ReportInfo>): nat {
    if rs == [] then 0
    else TimesInReports(m, metrics, rs[..|rs| - 1]) + TimesInReport(m, metrics, rs[|rs| - 1])
  }

  lemma {:induction false} TimesInOne(m: Metric, metrics: seq<Metric>, rs: seq<ReportInfo>, k: nat)
    requires k < |rs|
    requires forall i :: 0 <= i < |rs| && i != k ==> TimesInReport(m, metrics, rs[i]) == 0
    ensures TimesInReports(m, metrics, rs) == TimesInReport(m, metrics, rs[k])
  {
    var n := |rs| - 1;
    if k < n {
      TimesInOne(m, metrics, rs[..n], k);
    } else {
      TimesInNone(m, metrics, rs[..n]);
    }
  }

  lemma {:induction false} TimesInNone(m: Metric, metrics: seq<Metric>, rs: seq<ReportInfo>)
    requires forall i :: 0 <= i < |rs| ==> TimesInReport(m, metrics, rs[i]) == 0
    ensures TimesInReports(m, metrics, rs) == 0
  {
    if rs != [] {
      TimesInNone(m, metrics, rs[..|rs| - 1]);
    }
  }

  /** How often a metric should be in the i-th of a request's reports: a start
      metric in the first only, a final one in the last only, an intermediate one
      in each, if that report has what the metric's mark needs. */
  function TimesDue(m: Metric, metrics: seq<Metric>, rs: seq<ReportInfo>, i: nat): nat
    requires i < |rs|
  {
    if && rs[i].hasOperation && m.settable && ReportedWith(m, rs[i])
       && (m.tag == START ==> i == 0) && (m.tag == FINAL ==> i == |rs| - 1)
    then Times(m, metrics) else 0
  }

  /** Conservation over any stream and for every metric: each report has it exactly
      as often as due, so that a request count (a start metric) is reported once
      in all if the first report has what it needs, and a final metric once in all
      if the last report has. */
  lemma {:induction false} MetricOverStream(m: Metric, metrics: seq<Metric>, isGrpc: bool, interval: int, op: bool,
                                            key: bool, now: int, es: seq<StreamEvent>)
    ensures var rs := AllReports(Open(isGrpc, interval, op, key, now), es);
            && rs != []
            && (forall i :: 0 <= i < |rs| ==> rs[i].hasOperation == op
                                              && TimesInReport(m, metrics, rs[i]) == TimesDue(m, metrics, rs, i))
            && (m.tag == START ==> TimesInReports(m, metrics, rs) == TimesDue(m, metrics, rs, 0))
            && (m.tag == FINAL ==> TimesInReports(m, metrics, rs) == TimesDue(m, metrics, rs, |rs| - 1))
  {
    var rs := AllReports(Open(isGrpc, interval, op, key, now), es);
    FirstAndFinal(isGrpc, interval, op, key, now, es);
    forall i | 0 <= i < |rs|
      ensures TimesInReport(m, metrics, rs[i]) == TimesDue(m, metrics, rs, i)
    {
      ReportContents(m, metrics, [], rs[i]);
    }
    if m.tag == START {
      TimesInOne(m, metrics, rs, 0);
    } else if m.tag == FINAL {
      TimesInOne(m, metrics, rs, |rs| - 1);
    }
  }

  /** So a settable request count (a start metric) selected once is reported exactly
      once in all if the first report has what it needs, and otherwise never. */
  lemma {:induction false} RequestCountOnce(m: Metric, metrics: seq<Metric>, isGrpc: bool, interval: int, op: bool,
                                            key: bool, now: int, es: seq<StreamEvent>)
    requires m.tag == START && m.settable && op && Times(m, metrics) == 1
    ensures var rs := AllReports(Open(isGrpc, interval, op, key, now), es);
            rs != [] && TimesInReports(m, metrics, rs) == if ReportedWith(m, rs[0]) then 1 else 0
  {
    MetricOverStream(m, metrics, isGrpc, interval, op, key, now, es);
  }

  /** And a settable final metric selected once exactly once in all, in the last
      report, if that has what it needs, and otherwise never; log entries are in
      the last report and in no other. */
  lemma {:induction false} FinalOnlyLast(m: Metric, metrics: seq<Metric>, logs: seq<string>, isGrpc: bool,
                                         interval: int, op: bool, key: bool, now: int, es: seq<StreamEvent>)
    requires m.tag == FINAL && m.settable && op && Times(m, metrics) == 1
    ensures var rs := AllReports(Open(isGrpc, interval, op, key, now), es);
            var n := |rs| - 1;
            && n >= 0
            && TimesInReports(m, metrics, rs) == TimesInReport(m, metrics, rs[n])
            && TimesInReport(m, metrics, rs[n]) == (if ReportedWith(m, rs[n]) then 1 else 0)
            && forall i :: 0 <= i <= n ==>
                 && Operations(metrics, logs, rs[i])[0].logs == (if i == n then logs else [])
                 && (rs[i].hasConsumerProject ==> Operations(metrics, logs, rs[i])[1].logs == [])
  {
    MetricOverStream(m, metrics, isGrpc, interval, op, key, now, es);
    FirstAndFinal(isGrpc, interval, op, key, now, es);
  }

  /** While an intermediate metric is in every report that has what it needs. */
  lemma {:induction false} IntermediateInEvery(m: Metric, metrics: seq<Metric>, isGrpc: bool, interval: int,
                                               op: bool, key: bool, now: int, es: seq<StreamEvent>, i: nat)
    requires m.tag == INTERMEDIATE && m.settable && op && Times(m, metrics) == 1
    requires i < |AllReports(Open(isGrpc, interval, op, key, now), es)|
    ensures var r := AllReports(Open(isGrpc, interval, op, key, now), es)[i];
            TimesInReport(m, metrics, r) == if ReportedWith(m, r) then 1 else 0
  {
    MetricOverStream(m, metrics, isGrpc, interval, op, key, now, es);
  }

  // ---------------------------------------------------------------------------
  // The reports of a stream, from its events alone
  // ---------------------------------------------------------------------------

  /** Whether `interval` milliseconds are over, partial milliseconds not counted. */
  predicate Elapsed(since: int, now: int, interval: int) {
    if interval > 0 then now - since >= interval * 1_000_000 else now - since > (interval - 1) * 1_000_000
  }

  /** The key is usable until a check answer says otherwise, and the last answer
      counts; a consumer project is known from the last answer only. */
  function UsableAfter(es: seq<StreamEvent>): bool {
    if es == [] then true
    else if es[|es| - 1].CheckInfo? then es[|es| - 1].keyUsable
    else UsableAfter(es[..|es| - 1])
  }

  function ProjectAfter(es: seq<StreamEvent>): bool {
    if es == [] then false
    else if es[|es| - 1].CheckInfo? then es[|es| - 1].hasProject
    else ProjectAfter(es[..|es| - 1])
  }

  function InfoAfter(op: bool, key: bool, es: seq<StreamEvent>, isFirst: bool, isFinal: bool): ReportInfo {
    ReportInfo(op, key && UsableAfter(es), ProjectAfter(es), isFirst, isFinal)
  }

  /** The clock reading of the last report, or of the stream's beginning. */
  function LastReport(isGrpc: bool, interval: int, begun: int, es: seq<StreamEvent>): int {
    if es == [] then begun
    else
      var before, last := LastReport(isGrpc, interval, begun, es[..|es| - 1]), es[|es| - 1];
      if last.DataAt? && isGrpc && Elapsed(before, last.now, interval) then last.now else before
  }

  /** The reports before the final one. */
  function ReportsOf(isGrpc: bool, interval: int, op: bool, key: bool, begun: int, es: seq<StreamEvent>)
    : seq<ReportInfo>
  {
    if es == [] then []
    else
      var init, last := es[..|es| - 1], es[|es| - 1];
      var before := ReportsOf(isGrpc, interval, op, key, begun, init);
      if last.DataAt? && isGrpc && Elapsed(LastReport(isGrpc, interval, begun, init), last.now, interval)
      then before + [InfoAfter(op, key, init, before == [], false)]
      else before
  }

  lemma {:induction false} StreamState(isGrpc: bool, interval: int, op: bool, key: bool, begun: int,
                                       es: seq<StreamEvent>)
    ensures OnAll(Open(isGrpc, interval, op, key, begun), es) ==
            Stream(isGrpc, interval, op, key, UsableAfter(es), ProjectAfter(es),
                   ReportsOf(isGrpc, interval, op, key, begun, es) == [],
                   LastReport(isGrpc, interval, begun, es),
                   ReportsOf(isGrpc, interval, op, key, begun, es))
  {
    if es != [] {
      var init, last := es[..|es| - 1], es[|es| - 1];
      StreamState(isGrpc, interval, op, key, begun, init);
      OnAllSnoc(Open(isGrpc, interval, op, key, begun), init, last);
      assert init + [last] == es;
      if last.DataAt? {
        ElapsedIffMilliseconds(LastReport(isGrpc, interval, begun, init), last.now, interval);
      }
    }
  }

  lemma ElapsedIffMilliseconds(since: int, now: int, interval: int)
    ensures ToMilliseconds(now - since) >= interval <==> Elapsed(since, now, interval)
  {}

  /** A stream is reported on exactly when it is gRPC and data comes with the
      interval over since the last report, and each report has the key and the
      project of the last check answer before it; the final report comes after. */
  lemma {:induction false} StreamReports(isGrpc: bool, interval: int, op: bool, key: bool, begun: int,
                                         es: seq<StreamEvent>)
    ensures var rs := ReportsOf(isGrpc, interval, op, key, begun, es);
            AllReports(Open(isGrpc, interval, op, key, begun), es)
            == rs + [InfoAfter(op, key, es, rs == [], true)]
  {
    StreamState(isGrpc, interval, op, key, begun, es);
  }

  /** Rate bound: for a positive interval and any clock readings at all, N
      intermediate reports take at least N intervals of clock time. */
  lemma {:induction false} RateBound(s: Stream, es: seq<StreamEvent>)
    requires s.intervalMs > 0
    ensures var s' := OnAll(s, es);
            && |s'.reports| >= |s.reports| && s'.intervalMs == s.intervalMs
            && (|s'.reports| - |s.reports|) * (s.intervalMs * NS_PER_MS) <= s'.lastReported - s.lastReported
    decreases |es|
  {
    if es != [] {
      var t := OnStream(s, es[0]);
      RateBound(t, es[1..]);
      var s' := OnAll(s, es);
      if |t.reports| > |s.reports| {
        var unit := s.intervalMs * NS_PER_MS;
        assert t.lastReported - s.lastReported >= unit;
        OneMore(|s'.reports| - |t.reports|, unit);
      }
    }
  }

  lemma OneMore(n: int, unit: int)
    ensures (n + 1) * unit == n * unit + unit
  {}
}
