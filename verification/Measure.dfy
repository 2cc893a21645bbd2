/**
 * A whole measurement: logs collected pod by pod from a cutoff on, windows as the roll watcher
 * lists them, one call of Analyze, and the exit code.
 */
module Measure {
  import opened Wrappers
  import opened Model
  import opened Collections
  import opened VerdictSpec
  import opened Diagnosis
  import opened Analyzer
  import opened EventTheorems
  import opened WindowTheorems
  import opened EndToEnd
  import opened HeldConn
  import opened Identifiers
  import opened Meaning
  import RollWatcher

  datatype MeasureConfig = MeasureConfig(grace: Duration, recoveryBound: int, jitterEps: Duration)

  // int(d.Seconds()): Go truncates toward zero.
  function WholeSeconds(d: Duration): (s: int)
    ensures d >= 0 ==> s * 1_000_000_000 <= d < (s + 1) * 1_000_000_000
    ensures d < 0 ==> (s - 1) * 1_000_000_000 < d <= s * 1_000_000_000
  {
    if d >= 0 then d / SECOND else -(-d / SECOND)
  }

  function MeasureInput(trigger: TriggerInfo, prereq: string, events: seq<ConnEvent>, windows: seq<RollWindow>, cfg: MeasureConfig): Input {
    Input(trigger, events, windows,
          Config(cfg.recoveryBound, WholeSeconds(cfg.grace), cfg.jitterEps, prereq == "", prereq, None))
  }

  function ExitCode(v: Verdict): int {
    match v
    case PASS => 0
    case FAIL => 1
    case ERROR => 2
  }

  // ---------------------------------------------------------------- collection

  // A line of a pod's log; what does not decode to an event of some kind is None.
  datatype LogLine = LogLine(written: Time, event: Option<ConnEvent>)

  // A log that cannot be read is None.
  type PodLog = Option<seq<LogLine>>

  function Events(lines: seq<LogLine>): seq<ConnEvent> {
    if lines == [] then []
    else
      var last := lines[|lines| - 1];
      Events(lines[..|lines| - 1]) + if last.event.Some? then [last.event.value] else []
  }

  // What the log service hands out under SinceTime.
  function LinesSince(since: Time): LogLine -> bool {
    (l: LogLine) => l.written >= since
  }

  function PodEvents(log: PodLog, since: Time): seq<ConnEvent> {
    if log.None? then [] else Events(Filter(log.value, LinesSince(since)))
  }

  function Collected(logs: seq<PodLog>, since: Time): seq<ConnEvent> {
    if logs == [] then []
    else Collected(logs[..|logs| - 1], since) + PodEvents(logs[|logs| - 1], since)
  }

  method ParseEvents(lines: seq<LogLine>) returns (out: seq<ConnEvent>)
    ensures out == Events(lines)
  {
    out := [];
    for k := 0 to |lines|
      invariant out == Events(lines[..k])
    {
      assert lines[..k + 1][..k] == lines[..k];
      if lines[k].event.None? {
        continue;
      }
      out := out + [lines[k].event.value];
    }
    assert lines[..|lines|] == lines;
  }

  // The lines before line n that decode and were written since the cutoff.
  ghost function Readable(lines: seq<LogLine>, since: Time, n: int): set<int> {
    set k | 0 <= k < n && k < |lines| && lines[k].event.Some? && lines[k].written >= since
  }

  // Each readable line, and nothing else, has its event, after those of the readable lines before it.
  ghost predicate InLineOrder(out: seq<ConnEvent>, lines: seq<LogLine>, since: Time) {
    && |out| == |Readable(lines, since, |lines|)|
    && forall k :: k in Readable(lines, since, |lines|) ==>
         |Readable(lines, since, k)| < |out| && Some(out[|Readable(lines, since, k)|]) == lines[k].event
  }

  lemma ReadablePrefix(lines: seq<LogLine>, since: Time, n: int, k: int)
    requires 0 <= k <= n <= |lines|
    ensures Readable(lines[..n], since, k) == Readable(lines, since, k)
  {
    assert forall j :: 0 <= j < n ==> lines[..n][j] == lines[j];
  }

  // What holds of a readable line holds with one more line behind it.
  lemma PlaceKept(out: seq<ConnEvent>, lines: seq<LogLine>, since: Time, k: int)
    requires lines != [] && InLineOrder(out, lines[..|lines| - 1], since) && k in Readable(lines, since, |lines| - 1)
    ensures |Readable(lines, since, k)| < |out| && Some(out[|Readable(lines, since, k)|]) == lines[k].event
  {
    var n := |lines| - 1;
    ReadablePrefix(lines, since, n, n);
    ReadablePrefix(lines, since, n, k);
  }

  lemma ReadableGrows(lines: seq<LogLine>, since: Time)
    requires lines != [] && lines[|lines| - 1].event.Some? && lines[|lines| - 1].written >= since
    ensures var n := |lines| - 1;
      && Readable(lines, since, |lines|) == Readable(lines, since, n) + {n}
      && |Readable(lines, since, |lines|)| == |Readable(lines, since, n)| + 1
  {
    var n := |lines| - 1;
    assert Readable(lines, since, n + 1) == Readable(lines, since, n) + {n};
  }

  // The place of a line in the stream that ends with one more event.
  lemma PlaceRead(out: seq<ConnEvent>, lines: seq<LogLine>, since: Time, k: int)
    requires lines != [] && InLineOrder(out, lines[..|lines| - 1], since)
    requires lines[|lines| - 1].event.Some? && lines[|lines| - 1].written >= since
    requires k in Readable(lines, since, |lines|)
    ensures var more := out + [lines[|lines| - 1].event.value];
      |Readable(lines, since, k)| < |more| && Some(more[|Readable(lines, since, k)|]) == lines[k].event
  {
    var n := |lines| - 1;
    if k < n {
      PlaceKept(out, lines, since, k);
    } else {
      ReadablePrefix(lines, since, n, n);
      assert |Readable(lines, since, k)| == |out|;
    }
  }

  // One more line, readable or not.
  lemma LineRead(out: seq<ConnEvent>, lines: seq<LogLine>, since: Time)
    requires lines != [] && InLineOrder(out, lines[..|lines| - 1], since)
    requires lines[|lines| - 1].event.Some? && lines[|lines| - 1].written >= since
    ensures InLineOrder(out + [lines[|lines| - 1].event.value], lines, since)
  {
    ReadableGrows(lines, since);
    ReadablePrefix(lines, since, |lines| - 1, |lines| - 1);
    var more := out + [lines[|lines| - 1].event.value];
    forall k | k in Readable(lines, since, |lines|)
      ensures |Readable(lines, since, k)| < |more| && Some(more[|Readable(lines, since, k)|]) == lines[k].event
    {
      PlaceRead(out, lines, since, k);
    }
  }

  lemma LineSkipped(out: seq<ConnEvent>, lines: seq<LogLine>, since: Time)
    requires lines != [] && InLineOrder(out, lines[..|lines| - 1], since)
    requires lines[|lines| - 1].event.None? || lines[|lines| - 1].written < since
    ensures InLineOrder(out, lines, since)
  {
    var n := |lines| - 1;
    ReadablePrefix(lines, since, n, n);
    assert Readable(lines, since, |lines|) == Readable(lines, since, n);
    forall k | k in Readable(lines, since, |lines|)
      ensures |Readable(lines, since, k)| < |out| && Some(out[|Readable(lines, since, k)|]) == lines[k].event
    {
      PlaceKept(out, lines, since, k);
    }
  }

  /** What is collected from one log. */
  lemma {:induction false} PodEventsMean(lines: seq<LogLine>, since: Time)
    ensures InLineOrder(PodEvents(Some(lines), since), lines, since)
  {
    if lines == [] {
      assert Readable(lines, since, 0) == {};
    } else {
      var n := |lines| - 1;
      PodEventsMean(lines[..n], since);
      FilterEvents(lines[..n], lines[n], since);
      assert lines[..n] + [lines[n]] == lines;
      var out := PodEvents(Some(lines[..n]), since);
      if lines[n].event.Some? && lines[n].written >= since {
        LineRead(out, lines, since);
      } else {
        LineSkipped(out, lines, since);
        assert out + [] == out;
      }
    }
  }

  lemma FilterEvents(lines: seq<LogLine>, last: LogLine, since: Time)
    ensures PodEvents(Some(lines + [last]), since)
         == PodEvents(Some(lines), since) + if last.event.Some? && last.written >= since then [last.event.value] else []
  {
    var rest := Filter(lines, LinesSince(since));
    FilterAppend(lines, last, LinesSince(since));
    assert (rest + [last])[..|rest|] == rest;
    assert Events(rest) + [] == Events(rest);
  }

  lemma FilterLines(lines: seq<LogLine>, since: Time)
    requires forall l :: l in lines ==> l.written >= since
    ensures Filter(lines, LinesSince(since)) == lines
  {
    FilterAll(lines, LinesSince(since));
  }

  /** Parsing a log keeps every line that decodes, in order. */
  lemma EventsMean(lines: seq<LogLine>, since: Time)
    requires forall l :: l in lines ==> l.written >= since
    ensures InLineOrder(Events(lines), lines, since)
  {
    PodEventsMean(lines, since);
    FilterLines(lines, since);
  }

  // Where pod i's events begin in the collected stream.
  function PodStart(logs: seq<PodLog>, since: Time, i: nat): nat
    requires i <= |logs|
  {
    |Collected(logs[..i], since)|
  }

  // What out holds between from and to is what was collected of log.
  ghost predicate HoldsLog(out: seq<ConnEvent>, from: nat, to: nat, log: PodLog, since: Time) {
    && from <= to <= |out|
    && (log.None? ==> from == to)
    && (log.Some? ==> InLineOrder(out[from..to], log.value, since))
  }

  lemma PodEventsHold(log: PodLog, since: Time, earlier: seq<ConnEvent>)
    ensures var evs := PodEvents(log, since);
      HoldsLog(earlier + evs, |earlier|, |earlier| + |evs|, log, since)
  {
    var evs := PodEvents(log, since);
    assert (earlier + evs)[|earlier|..|earlier| + |evs|] == evs;
    if log.Some? {
      PodEventsMean(log.value, since);
    }
  }

  lemma HoldsOn(out: seq<ConnEvent>, more: seq<ConnEvent>, from: nat, to: nat, log: PodLog, since: Time)
    requires HoldsLog(out, from, to, log, since)
    ensures HoldsLog(out + more, from, to, log, since)
  {
    assert (out + more)[from..to] == out[from..to];
  }

  /** The collected stream: pod after pod, each pod's own events, and none for an unreadable log. */
  lemma {:induction false} CollectedMeans(logs: seq<PodLog>, since: Time, i: nat)
    requires i < |logs|
    ensures PodStart(logs, since, 0) == 0 && PodStart(logs, since, |logs|) == |Collected(logs, since)|
    ensures HoldsLog(Collected(logs, since), PodStart(logs, since, i), PodStart(logs, since, i + 1), logs[i], since)
    decreases |logs|
  {
    var n := |logs| - 1;
    assert logs[..n + 1] == logs;
    if i < n {
      assert logs[..n][..i] == logs[..i] && logs[..n][..i + 1] == logs[..i + 1];
      CollectedMeans(logs[..n], since, i);
      HoldsOn(Collected(logs[..n], since), PodEvents(logs[n], since), PodStart(logs, since, i), PodStart(logs, since, i + 1), logs[i], since);
    } else {
      PodEventsHold(logs[n], since, Collected(logs[..n], since));
    }
  }

  /**
   * A pod whose log cannot be read loses its own events and nobody else's; when the pods cannot
   * be listed there are no events at all.
   */
  method CollectEvents(pods: Option<seq<PodLog>>, since: Time) returns (events: seq<ConnEvent>)
    ensures events == if pods.None? then [] else Collected(pods.value, since)
  {
    events := [];
    if pods.None? {
      return;
    }
    var logs := pods.value;
    for i := 0 to |logs|
      invariant events == Collected(logs[..i], since)
    {
      assert logs[..i + 1][..i] == logs[..i];
      if logs[i].None? {
        assert events + [] == events;
        continue;
      }
      var evs := ParseEvents(Filter(logs[i].value, LinesSince(since)));
      events := events + evs;
    }
    assert logs[..|logs|] == logs;
  }

  // What a result says of the events and windows it was made from.
  ghost predicate Tells(res: Result, events: seq<ConnEvent>, windows: seq<RollWindow>, k: Terms) {
    && (forall r :: Reported(res.anomalies, r) <==> Earned(events, windows, k, r))
    && forall r :: res.reason == Some(r) <==>
         Earned(events, windows, k, r) && forall r' :: Earned(events, windows, k, r') ==> Rank(r) <= Rank(r')
  }

  // What an exit code says of them.
  ghost predicate CodeTells(code: int, events: seq<ConnEvent>, windows: seq<RollWindow>, k: Terms) {
    && 0 <= code <= 2
    && (code == 0 <==> forall r :: !Earned(events, windows, k, r))
    && (code == 2 <==> k.prereqMissing || (k.fired && windows == [])
                       || (exists w :: w in windows && w.readyAt == None) || AnyDeath(events, windows, k.eps))
  }

  lemma InputTells(in_: Input, k: Terms)
    requires k.eps == in_.config.jitterTolerance && k.bound == in_.config.recoveryBoundSeconds * 1_000_000_000
    requires k.prereqMissing == (in_.config.triggerPrereqError != "") && k.fired == in_.config.triggerFired
    ensures Tells(Outcome(in_), in_.events, in_.windows, k)
    ensures CodeTells(ExitCode(Outcome(in_).verdict), in_.events, in_.windows, k)
  {
    VerdictMeans(in_, k);
  }

  /**
   * Exit code 3 means that there was no cluster to measure or nowhere to put the result;
   * otherwise 0 that no reason is earned, 2 that an ERROR one is, 1 anything else.
   */
  method RunMeasure(connected: bool, trigger: TriggerInfo, prereq: string, pods: Option<seq<PodLog>>, since: Time,
                    windows: seq<RollWindow>, cfg: MeasureConfig, written: bool)
      returns (res: Option<Result>, code: int)
    ensures res.None? <==> !connected
    ensures code == 3 <==> !connected || !written
    ensures res.Some? ==>
      var events := if pods.None? then [] else Collected(pods.value, since);
      var k := Terms(cfg.jitterEps, cfg.recoveryBound * 1_000_000_000, prereq != "", prereq == "");
      && res.value == Outcome(MeasureInput(trigger, prereq, events, windows, cfg))
      && Tells(res.value, events, windows, k)
      && (written ==> CodeTells(code, events, windows, k))
      && res.value.trigger == trigger && res.value.recoveryBoundSeconds == cfg.recoveryBound
  {
    if !connected {
      return None, 3;
    }
    var events := CollectEvents(pods, since);
    var in_ := MeasureInput(trigger, prereq, events, windows, cfg);
    var outcome := Analyze(in_);
    InputTells(in_, Terms(cfg.jitterEps, cfg.recoveryBound * 1_000_000_000, prereq != "", prereq == ""));
    return Some(outcome), if written then ExitCode(outcome.verdict) else 3;
  }

  // ------------------------------------------------------- per-pod composition

  // No two pods measure the same connection.
  ghost predicate SeparateLogs(logs: seq<seq<ConnEvent>>) {
    forall i, j :: 0 <= i < j < |logs| ==> Separate(EventSet(logs[i]), EventSet(logs[j]))
  }

  function Flatten<T>(parts: seq<seq<T>>): seq<T> {
    if parts == [] then [] else Flatten(parts[..|parts| - 1]) + parts[|parts| - 1]
  }

  lemma {:induction false} FlattenElements<T>(parts: seq<seq<T>>, x: T)
    ensures x in Flatten(parts) <==> exists i :: 0 <= i < |parts| && x in parts[i]
  {
    if parts != [] {
      FlattenElements(parts[..|parts| - 1], x);
    }
  }

  ghost function WorstVerdict(base: Input, logs: seq<seq<ConnEvent>>): Verdict {
    if logs == [] then Outcome(base.(events := [])).verdict
    else Worse(WorstVerdict(base, logs[..|logs| - 1]), Outcome(base.(events := logs[|logs| - 1])).verdict)
  }

  /** Any number of pods: the verdict on all logs together is the worst of the pods' own verdicts. */
  lemma {:induction false} PodsCompose(base: Input, logs: seq<seq<ConnEvent>>)
    requires SeparateLogs(logs)
    ensures Outcome(base.(events := Flatten(logs))).verdict == WorstVerdict(base, logs)
  {
    if logs != [] {
      var n := |logs| - 1;
      PodsCompose(base, logs[..n]);
      forall e, f | e in EventSet(Flatten(logs[..n])) && f in EventSet(logs[n]) && Measured(e) && Measured(f)
        ensures e.connId != f.connId
      {
        FlattenElements(logs[..n], e);
        var i :| 0 <= i < n && e in logs[..n][i];
        assert Separate(EventSet(logs[i]), EventSet(logs[n]));
        assert e in EventSet(logs[i]);
      }
      Decomposition(base.(events := Flatten(logs[..n])), base.(events := logs[n]), base.(events := Flatten(logs)));
    }
  }

  // Each log holds events of its own pod's workers only.
  ghost predicate OwnEvents(logs: seq<seq<ConnEvent>>, pods: seq<seq<Actor>>) {
    |logs| == |pods| && forall i, e :: 0 <= i < |logs| && e in logs[i] ==> FromFleet(pods[i], e)
  }

  lemma {:induction false} NamesAcrossPods(pods: seq<seq<Actor>>, i: nat, j: nat, a: Actor, b: Actor)
    requires WellFormed(Flatten(pods)) && i < j < |pods| && a in pods[i] && b in pods[j] && a.Held? && b.Held?
    ensures a.name != b.name
    decreases |pods|
  {
    var n := |pods| - 1;
    var earlier := Flatten(pods[..n]);
    assert Flatten(pods) == earlier + pods[n];
    if j < n {
      WellFormedPrefix(earlier, pods[n]);
      NamesAcrossPods(pods[..n], i, j, a, b);
    } else {
      assert pods[..n][i] == pods[i];
      FlattenElements(pods[..n], a);
      var p :| 0 <= p < |earlier| && earlier[p] == a;
      var q :| 0 <= q < |pods[n]| && pods[n][q] == b;
      assert Flatten(pods)[p] == a && Flatten(pods)[|earlier| + q] == b;
    }
  }

  lemma WellFormedPrefix(a: seq<Actor>, b: seq<Actor>)
    requires WellFormed(a + b)
    ensures WellFormed(a)
  {
    forall i, j | 0 <= i < j < |a| && a[i].Held? && a[j].Held? ensures a[i].name != a[j].name {
      assert (a + b)[i] == a[i] && (a + b)[j] == a[j];
    }
  }

  /** Workers of one well-formed fleet, spread over pods, keep their pods' logs separate ... */
  lemma FleetLogsSeparate(logs: seq<seq<ConnEvent>>, pods: seq<seq<Actor>>)
    requires OwnEvents(logs, pods) && WellFormed(Flatten(pods))
    ensures SeparateLogs(logs)
  {
    forall i, j, e, f | 0 <= i < j < |logs| && e in EventSet(logs[i]) && f in EventSet(logs[j]) && Measured(e) && Measured(f)
      ensures e.connId != f.connId
    {
      var a :| a in pods[i] && e in Stream(a);
      var b :| b in pods[j] && f in Stream(b);
      if e.connId == f.connId {
        OneWorkerPerId(a, b, e, f);
        NamesAcrossPods(pods, i, j, a, b);
      }
    }
  }

  /** ... so such logs can be analysed pod by pod, whole or cut. */
  lemma FleetPodsCompose(base: Input, logs: seq<seq<ConnEvent>>, pods: seq<seq<Actor>>)
    requires OwnEvents(logs, pods) && WellFormed(Flatten(pods))
    ensures Outcome(base.(events := Flatten(logs))).verdict == WorstVerdict(base, logs)
  {
    FleetLogsSeparate(logs, pods);
    PodsCompose(base, logs);
  }

  // ---------------------------------------------------------------- whole run

  // Everything that the readable logs ever held.
  function WholeLogs(logs: seq<PodLog>): seq<ConnEvent> {
    if logs == [] then []
    else
      var last := logs[|logs| - 1];
      WholeLogs(logs[..|logs| - 1]) + if last.None? then [] else Events(last.value)
  }

  // Every line was written when `written` says that its event was.
  ghost predicate Dated(logs: seq<PodLog>, written: ConnEvent -> Time) {
    forall log, l :: log in logs && log.Some? && l in log.value && l.event.Some? ==> l.written == written(l.event.value)
  }

  function WrittenSince(written: ConnEvent -> Time, since: Time): ConnEvent -> bool {
    (e: ConnEvent) => written(e) >= since
  }

  lemma {:induction false} EventsSince(lines: seq<LogLine>, written: ConnEvent -> Time, since: Time)
    requires forall l :: l in lines && l.event.Some? ==> l.written == written(l.event.value)
    ensures Events(Filter(lines, LinesSince(since))) == Filter(Events(lines), WrittenSince(written, since))
  {
    if lines != [] {
      var n := |lines| - 1;
      var rest := Filter(lines[..n], LinesSince(since));
      assert lines == lines[..n] + [lines[n]];
      EventsSince(lines[..n], written, since);
      assert (rest + [lines[n]])[..|rest|] == rest && rest + [] == rest;
      var kept := Events(lines[..n]);
      if lines[n].event.Some? {
        assert (kept + [lines[n].event.value])[..|kept|] == kept;
      } else {
        assert kept + [] == kept && Events(rest) + [] == Events(rest);
      }
    }
  }

  /** What is collected is what was written since the cutoff, of all that the readable logs held. */
  lemma {:induction false} CollectedIsKept(logs: seq<PodLog>, written: ConnEvent -> Time, since: Time)
    requires Dated(logs, written)
    ensures Collected(logs, since) == Filter(WholeLogs(logs), WrittenSince(written, since))
  {
    if logs != [] {
      var n := |logs| - 1;
      assert logs == logs[..n] + [logs[n]];
      CollectedIsKept(logs[..n], written, since);
      var last := if logs[n].None? then [] else Events(logs[n].value);
      FilterConcat(WholeLogs(logs[..n]), last, WrittenSince(written, since));
      if logs[n].Some? {
        EventsSince(logs[n].value, written, since);
      }
    }
  }

  // The readable logs are those of the fleet's workers, in any interleaving and grouping.
  ghost predicate LogsOf(logs: seq<PodLog>, fleet: seq<Actor>, written: ConnEvent -> Time) {
    WellFormed(fleet) && Recorded(WholeLogs(logs), fleet, Everything()) && Dated(logs, written)
  }

  lemma CollectedRecord(logs: seq<PodLog>, fleet: seq<Actor>, written: ConnEvent -> Time, since: Time)
    requires LogsOf(logs, fleet, written)
    ensures Recorded(Collected(logs, since), fleet, WrittenSince(written, since))
  {
    CollectedIsKept(logs, written, since);
    FilteredRecord(WholeLogs(logs), fleet, WrittenSince(written, since));
  }

  /**
   * The measurement tells the truth about the workers whose logs it could read, for any cutoff:
   * it reports, leads with and concludes what their connections, dials and waits earn, as far as
   * these were written since the cutoff.
   */
  lemma MeasuredVerdict(in_: Input, logs: seq<PodLog>, fleet: seq<Actor>, written: ConnEvent -> Time, since: Time, k: Terms)
    requires LogsOf(logs, fleet, written) && in_.events == Collected(logs, since)
    requires k.eps == in_.config.jitterTolerance && k.bound == in_.config.recoveryBoundSeconds * 1_000_000_000
    requires k.prereqMissing == (in_.config.triggerPrereqError != "") && k.fired == in_.config.triggerFired
    ensures var f := FleetFacts(fleet, WrittenSince(written, since), in_.windows, k);
      && (forall r :: Violates(in_, r) <==> Follows(f, r))
      && Outcome(in_).reason == Lead(f)
      && Outcome(in_).verdict == VerdictFor(Lead(f))
  {
    CollectedRecord(logs, fleet, written, since);
    FleetVerdict(in_, fleet, WrittenSince(written, since), k);
  }

  // The reasons that the collected events earn are those that the workers' facts earn.
  lemma FleetEarns(prereq: string, logs: seq<PodLog>, since: Time, windows: seq<RollWindow>, cfg: MeasureConfig,
                   fleet: seq<Actor>, written: ConnEvent -> Time, k: Terms, r: Reason)
    requires LogsOf(logs, fleet, written)
    requires k == Terms(cfg.jitterEps, cfg.recoveryBound * 1_000_000_000, prereq != "", prereq == "")
    ensures Earned(Collected(logs, since), windows, k, r)
       <==> Follows(FleetFacts(fleet, WrittenSince(written, since), windows, k), r)
  {
    var in_ := MeasureInput(TriggerInfo("", false, "", "", "", "", ""), prereq, Collected(logs, since), windows, cfg);
    MeasuredVerdict(in_, logs, fleet, written, since, k);
    EarnedExactly(in_, r);
  }

  /**
   * The answer of RunMeasure is the truth about the workers whose logs it could read: whatever
   * tells of the collected events what RunMeasure's result and exit code tell of them gives the
   * reasons, the lead and the code that the workers' facts have earned since the cutoff.
   */
  lemma FleetRun(res: Result, code: int, prereq: string, logs: seq<PodLog>, since: Time, windows: seq<RollWindow>,
                 cfg: MeasureConfig, fleet: seq<Actor>, written: ConnEvent -> Time, k: Terms)
    requires LogsOf(logs, fleet, written)
    requires k == Terms(cfg.jitterEps, cfg.recoveryBound * 1_000_000_000, prereq != "", prereq == "")
    requires Tells(res, Collected(logs, since), windows, k) && CodeTells(code, Collected(logs, since), windows, k)
    ensures var f := FleetFacts(fleet, WrittenSince(written, since), windows, k);
      && (forall r :: Reported(res.anomalies, r) <==> Follows(f, r))
      && res.reason == Lead(f)
      && (code == 0 <==> forall r :: !Follows(f, r))
      && (code == 2 <==> prereq != "" || windows == [] || f.halfOpen || f.died)
  {
    forall r ensures Earned(Collected(logs, since), windows, k, r)
      <==> Follows(FleetFacts(fleet, WrittenSince(written, since), windows, k), r)
    {
      FleetEarns(prereq, logs, since, windows, cfg, fleet, written, k, r);
    }
    TellsFacts(res, code, Collected(logs, since), windows, k, FleetFacts(fleet, WrittenSince(written, since), windows, k));
  }

  // A result and a code that tell of events which earn what f does.
  lemma TellsFacts(res: Result, code: int, events: seq<ConnEvent>, windows: seq<RollWindow>, k: Terms, f: Facts)
    requires Tells(res, events, windows, k) && CodeTells(code, events, windows, k)
    requires forall r :: Earned(events, windows, k, r) <==> Follows(f, r)
    ensures forall r :: Reported(res.anomalies, r) <==> Follows(f, r)
    ensures res.reason == Lead(f)
    ensures code == 0 <==> forall r :: !Follows(f, r)
    ensures code == 2 <==> f.prereqMissing || f.noRollout || f.halfOpen || f.died
  {
    LeadLaw(f);
    assert Earned(events, windows, k, TriggerPrereqMissing) <==> Follows(f, TriggerPrereqMissing);
    assert Earned(events, windows, k, NoRolloutObserved) <==> Follows(f, NoRolloutObserved);
    assert Earned(events, windows, k, HalfOpenWindow) <==> Follows(f, HalfOpenWindow);
    assert Earned(events, windows, k, DiedBeforeDrain) <==> Follows(f, DiedBeforeDrain);
    if res.reason.Some? {
      assert Lead(f) == Some(res.reason.value);
    }
    if Lead(f).Some? {
      assert res.reason == Some(Lead(f).value);
    }
  }

  /** For the probes and load workers of nodes that shadow none of them nothing is left to assume of names. */
  lemma HarnessVerdict(in_: Input, logs: seq<PodLog>, nodes: set<string>, holders: seq<Holder>, scripts: seq<seq<Obs>>,
                       shorts: seq<Actor>, written: ConnEvent -> Time, since: Time, k: Terms)
    requires !Shadowed(nodes) && Staffed(nodes, holders, scripts) && forall a :: a in shorts ==> a.Short?
    requires Recorded(WholeLogs(logs), HeldFleet(holders, scripts) + shorts, Everything()) && Dated(logs, written)
    requires in_.events == Collected(logs, since)
    requires k.eps == in_.config.jitterTolerance && k.bound == in_.config.recoveryBoundSeconds * 1_000_000_000
    requires k.prereqMissing == (in_.config.triggerPrereqError != "") && k.fired == in_.config.triggerFired
    ensures var f := FleetFacts(HeldFleet(holders, scripts) + shorts, WrittenSince(written, since), in_.windows, k);
      && (forall r :: Violates(in_, r) <==> Follows(f, r))
      && Outcome(in_).reason == Lead(f)
      && Outcome(in_).verdict == VerdictFor(Lead(f))
  {
    HarnessFleet(nodes, holders, scripts, shorts);
    MeasuredVerdict(in_, logs, HeldFleet(holders, scripts) + shorts, written, since, k);
  }

  /** Its numbers are true too: no connection counts twice, and recovery is the longest wait shown. */
  lemma MeasuredRun(in_: Input, logs: seq<PodLog>, fleet: seq<Actor>, written: ConnEvent -> Time, since: Time)
    requires LogsOf(logs, fleet, written) && in_.events == Collected(logs, since)
    ensures !Violates(in_, SameConnTwoWindows)
    ensures forall p :: p in Outcome(in_).perNodeAttribution ==> p.rawResets == p.distinctConnsReset
    ensures var ws, eps, keep := in_.windows, in_.config.jitterTolerance, WrittenSince(written, since);
      && (Violates(in_, PoolNotRecovered) <==> NeverRedialled(fleet, keep, ws, eps))
      && Outcome(in_).newConnFailures == FailedDials(fleet, keep)
      && forall x :: Outcome(in_).recovery == Some(x) <==>
           !NeverRedialled(fleet, keep, ws, eps) && LongestTrueGap(fleet, keep, ws, eps, x)
  {
    CollectedRecord(logs, fleet, written, since);
    AttributionExact(in_, fleet, WrittenSince(written, since));
    RecoveryExactness(in_, fleet, WrittenSince(written, since));
    NewConnExactness(in_, fleet, WrittenSince(written, since));
  }

  // The cutoff is no later than the first widened drain, and no line is older than its event.
  ghost predicate SafeCutoff(in_: Input, written: ConnEvent -> Time, since: Time) {
    && (forall w :: w in in_.windows ==> since <= w.drainingAt - in_.config.jitterTolerance)
    && forall e :: e in in_.events ==> e.ts <= written(e)
  }

  /**
   * With windows as the watcher lists them and a cutoff before the first widened drain, the cut
   * measurement has the table and the recovery of the whole one, and its verdict exactly unless
   * the whole verdict rests on events that the cutoff removed, every one of them.
   */
  lemma MeasuredCutoff(whole: Input, logs: seq<PodLog>, fleet: seq<Actor>, written: ConnEvent -> Time, since: Time,
                       h: seq<RollWatcher.Seen>, grace: Duration)
    requires LogsOf(logs, fleet, written) && whole.events == WholeLogs(logs)
    requires RollWatcher.Snapshot(h, grace, whole.windows) && SafeCutoff(whole, written, since)
    ensures WatcherWindows(whole.windows, grace)
    ensures var cut, keep := whole.(events := Collected(logs, since)), WrittenSince(written, since);
      && Outcome(cut).perNodeAttribution == Outcome(whole).perNodeAttribution
      && Outcome(cut).recovery == Outcome(whole).recovery
      && (Outcome(cut).verdict == Outcome(whole).verdict <==> !DeathsLost(whole, keep) && !FailuresLost(whole, keep))
  {
    var keep := WrittenSince(written, since);
    RollWatcher.SnapshotShape(h, grace, whole.windows);
    InterleavingCausal(whole.events, fleet, Everything());
    CollectedIsKept(logs, written, since);
    assert SafeLog(whole, keep);
    LogCutoff(whole, keep);
    CutoffVerdict(whole, keep);
  }
}
