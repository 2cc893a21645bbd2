/**
 * measure.Analyze, loop for loop. Each phase of the Go function is one method; together they
 * refine VerdictSpec.Outcome.
 */
module Analyzer {
  import opened Wrappers
  import opened Model
  import opened Collections
  import opened VerdictSpec
  import opened AttributionOrder

  // The three slices that addErr and addFail append to.
  datatype Findings = Findings(errors: seq<Anomaly>, fails: seq<Anomaly>, anomalies: seq<Anomaly>) {
    ghost predicate Valid() {
      errors == OfClass(anomalies, true) && fails == OfClass(anomalies, false)
    }
  }

  // f extends f0 by exactly the anomalies in added.
  ghost predicate Extends(f0: Findings, f: Findings, added: seq<Anomaly>) {
    f.Valid() && f.anomalies == f0.anomalies + added
  }

  lemma ExtendsNone(f: Findings)
    requires f.Valid()
    ensures Extends(f, f, [])
  {
  }

  lemma ExtendsTrans(f0: Findings, f1: Findings, f2: Findings, a: seq<Anomaly>, b: seq<Anomaly>)
    requires Extends(f0, f1, a) && Extends(f1, f2, b)
    ensures Extends(f0, f2, a + b)
  {
    assert f0.anomalies + a + b == f0.anomalies + (a + b);
  }

  method AddErr(f0: Findings, a: Anomaly) returns (f: Findings)
    requires f0.Valid() && a.reason.IsError()
    ensures Extends(f0, f, [a])
  {
    assert (f0.anomalies + [a])[..|f0.anomalies|] == f0.anomalies;
    f := Findings(f0.errors + [a], f0.fails, f0.anomalies + [a]);
  }

  method AddFail(f0: Findings, a: Anomaly) returns (f: Findings)
    requires f0.Valid() && !a.reason.IsError()
    ensures Extends(f0, f, [a])
  {
    assert (f0.anomalies + [a])[..|f0.anomalies|] == f0.anomalies;
    f := Findings(f0.errors, f0.fails + [a], f0.anomalies + [a]);
  }

  function MaxTime(a: Time, b: Time): Time {
    if a > b then a else b
  }

  function MinTime(a: Time, b: Time): Time {
    if a < b then a else b
  }

  method CountRaw(events: seq<ConnEvent>) returns (newConnFailures: nat, existingConnRSTs: nat)
    ensures newConnFailures == Count(events, OfKind(NewConnAttemptFail))
    ensures existingConnRSTs == Count(events, OfKind(ConnReset))
  {
    newConnFailures, existingConnRSTs := 0, 0;
    for k := 0 to |events|
      invariant newConnFailures == Count(events[..k], OfKind(NewConnAttemptFail))
      invariant existingConnRSTs == Count(events[..k], OfKind(ConnReset))
    {
      CountSnoc(events, k, OfKind(NewConnAttemptFail));
      CountSnoc(events, k, OfKind(ConnReset));
      match events[k].kind
      case NewConnAttemptFail => newConnFailures := newConnFailures + 1;
      case ConnReset => existingConnRSTs := existingConnRSTs + 1;
      case _ =>
    }
    assert events[..|events|] == events;
  }

  lemma HalfOpenStep(windows: seq<RollWindow>, k: nat, f0: Findings, f1: Findings, f: Findings)
    requires k < |windows|
    requires Extends(f0, f1, HalfOpenAnomalies(windows[..k])) && Extends(f1, f, HalfOpenOf(windows[k]))
    ensures Extends(f0, f, HalfOpenAnomalies(windows[..k + 1]))
  {
    assert windows[..k + 1][..k] == windows[..k];
    ExtendsTrans(f0, f1, f, HalfOpenAnomalies(windows[..k]), HalfOpenOf(windows[k]));
  }

  method FlagHalfOpen(windows: seq<RollWindow>, f0: Findings) returns (f: Findings)
    requires f0.Valid()
    ensures Extends(f0, f, HalfOpenAnomalies(windows))
  {
    f := f0;
    ExtendsNone(f0);
    for k := 0 to |windows|
      invariant Extends(f0, f, HalfOpenAnomalies(windows[..k]))
    {
      ghost var f1 := f;
      ExtendsNone(f);
      var w := windows[k];
      if w.readyAt.None? {
        f := AddErr(f, Anomaly(HalfOpenWindow, "", w.node, Some(w.drainingAt)));
      }
      HalfOpenStep(windows, k, f0, f1, f);
    }
    assert windows[..|windows|] == windows;
  }

  // How the loop finds an overlap.
  lemma OverlapTest(a: RollWindow, b: RollWindow, eps: Duration)
    ensures CrossNodeOverlap(a, b, eps) <==>
      && a.node != b.node
      && MinTime(a.graceExpiresAt, b.graceExpiresAt) - MaxTime(a.drainingAt, b.drainingAt) > eps
  {
  }

  // One pair of windows.
  method FlagPair(a: RollWindow, b: RollWindow, eps: Duration, f0: Findings) returns (f: Findings)
    requires f0.Valid()
    ensures Extends(f0, f, PairAnomaly(a, b, eps))
  {
    OverlapTest(a, b, eps);
    f := f0;
    ExtendsNone(f0);
    if a.node == b.node {
      return;
    }
    var latestStart := MaxTime(a.drainingAt, b.drainingAt);
    var earliestEnd := MinTime(a.graceExpiresAt, b.graceExpiresAt);
    if earliestEnd - latestStart > eps {
      f := AddFail(f, Anomaly(OverlappingNodeWindows, "", a.node, Some(latestStart)));
    }
  }

  // Window i has been compared with the windows before j.
  ghost predicate RowDone(windows: seq<RollWindow>, eps: Duration, i: nat, j: nat, f0: Findings, f: Findings) {
    i < j <= |windows| && Extends(f0, f, RowOverlaps(windows, eps, i, j))
  }

  lemma RowStep(windows: seq<RollWindow>, eps: Duration, i: nat, j: nat, f0: Findings, f1: Findings, f: Findings)
    requires j < |windows| && RowDone(windows, eps, i, j, f0, f1)
    requires Extends(f1, f, PairAnomaly(windows[i], windows[j], eps))
    ensures RowDone(windows, eps, i, j + 1, f0, f)
  {
    ExtendsTrans(f0, f1, f, RowOverlaps(windows, eps, i, j), PairAnomaly(windows[i], windows[j], eps));
  }

  // One turn of the inner loop.
  method FlagNext(windows: seq<RollWindow>, eps: Duration, i: nat, j: nat, f1: Findings, ghost f0: Findings) returns (f: Findings)
    requires j < |windows| && RowDone(windows, eps, i, j, f0, f1)
    ensures RowDone(windows, eps, i, j + 1, f0, f)
  {
    f := FlagPair(windows[i], windows[j], eps, f1);
    RowStep(windows, eps, i, j, f0, f1, f);
  }

  // The inner loop: window i against every later one.
  method FlagRow(windows: seq<RollWindow>, eps: Duration, i: nat, f0: Findings) returns (f: Findings)
    requires f0.Valid() && i < |windows|
    ensures Extends(f0, f, RowOverlaps(windows, eps, i, |windows|))
  {
    f := f0;
    ExtendsNone(f0);
    for j := i + 1 to |windows|
      invariant RowDone(windows, eps, i, j, f0, f)
    {
      f := FlagNext(windows, eps, i, j, f, f0);
    }
  }

  // The rows before i are done.
  ghost predicate RowsDone(windows: seq<RollWindow>, eps: Duration, i: nat, f0: Findings, f: Findings) {
    i <= |windows| && Extends(f0, f, OverlapAnomalies(windows, eps, i))
  }

  lemma OverlapStep(windows: seq<RollWindow>, eps: Duration, i: nat, f0: Findings, f1: Findings, f: Findings)
    requires i < |windows| && RowsDone(windows, eps, i, f0, f1)
    requires Extends(f1, f, RowOverlaps(windows, eps, i, |windows|))
    ensures RowsDone(windows, eps, i + 1, f0, f)
  {
    ExtendsTrans(f0, f1, f, OverlapAnomalies(windows, eps, i), RowOverlaps(windows, eps, i, |windows|));
  }

  // One turn of the outer loop.
  method FlagNextRow(windows: seq<RollWindow>, eps: Duration, i: nat, f1: Findings, ghost f0: Findings) returns (f: Findings)
    requires i < |windows| && RowsDone(windows, eps, i, f0, f1)
    ensures RowsDone(windows, eps, i + 1, f0, f)
  {
    f := FlagRow(windows, eps, i, f1);
    OverlapStep(windows, eps, i, f0, f1, f);
  }

  method FlagOverlaps(windows: seq<RollWindow>, eps: Duration, f0: Findings) returns (f: Findings)
    requires f0.Valid()
    ensures Extends(f0, f, OverlapAnomalies(windows, eps, |windows|))
  {
    f := f0;
    ExtendsNone(f0);
    for i := 0 to |windows|
      invariant RowsDone(windows, eps, i, f0, f)
    {
      f := FlagNextRow(windows, eps, i, f, f0);
    }
  }

  ghost predicate IsEarliestDrain(windows: seq<RollWindow>, have: bool, minDrain: Time) {
    && (have <==> windows != [])
    && (have ==> exists w :: w in windows && w.drainingAt == minDrain)
    && (have ==> forall w :: w in windows ==> minDrain <= w.drainingAt)
  }

  method EarliestDrain(windows: seq<RollWindow>) returns (have: bool, minDrain: Time)
    ensures IsEarliestDrain(windows, have, minDrain)
  {
    have, minDrain := false, 0;
    for k := 0 to |windows|
      invariant IsEarliestDrain(windows[..k], have, minDrain)
    {
      if !have || windows[k].drainingAt < minDrain {
        minDrain := windows[k].drainingAt;
        have := true;
        assert windows[k] in windows[..k + 1];
      }
      assert windows[..k + 1] == windows[..k] + [windows[k]];
    }
    assert windows[..|windows|] == windows;
  }

  /** The one window that owns an instant, or -1. */
  method AttributeReset(ts: Time, windows: seq<RollWindow>, eps: Duration) returns (best: int)
    ensures best == Owner(ts, windows, eps)
    ensures best == -1 <==> forall j :: 0 <= j < |windows| ==> !InWidened(ts, windows[j], eps)
    ensures best != -1 ==> IsOwner(best, ts, windows, eps)
  {
    best := -1;
    for i := 0 to |windows|
      invariant -1 <= best < i
      invariant best == -1 ==> forall j :: 0 <= j < i ==> !InWidened(ts, windows[j], eps)
      invariant best != -1 ==> IsOwner(best, ts, windows[..i], eps)
    {
      var w := windows[i];
      if ts < w.drainingAt - eps || ts > w.graceExpiresAt + eps {
        continue;
      }
      if best < 0 || w.drainingAt > windows[best].drainingAt {
        best := i;
      }
    }
    assert windows[..|windows|] == windows;
    assert best != -1 ==> IsOwner(best, ts, windows, eps);
  }

  datatype WindowAgg = WindowAgg(raw: nat, connResetTS: map<string, Time>)

  ghost predicate TimesMatch(m: map<string, Time>, E: set<ConnEvent>, o: ConnEvent -> int, i: int) {
    && m.Keys == ResetConns(E, o, i)
    && forall c :: c in m ==>
         m[c] in ResetTimes(E, o, i, c) && forall t :: t in ResetTimes(E, o, i, c) ==> t <= m[c]
  }

  ghost predicate AggMatches(a: WindowAgg, es: seq<ConnEvent>, o: ConnEvent -> int, i: int) {
    a.raw == Count(es, Charged(o, i)) && TimesMatch(a.connResetTS, EventSet(es), o, i)
  }

  ghost predicate ConnWindowsMatch(m: map<string, set<int>>, E: set<ConnEvent>, o: ConnEvent -> int) {
    && m.Keys == AttributedConns(E, o)
    && forall c, i :: c in m ==> (i in m[c] <==> i != -1 && c in ResetConns(E, o, i))
  }

  lemma EventSetSnoc(es: seq<ConnEvent>, k: nat)
    requires k < |es|
    ensures EventSet(es[..k + 1]) == EventSet(es[..k]) + {es[k]}
  {
    assert es[..k + 1] == es[..k] + [es[k]];
  }

  // Adding a reset to the aggregate of window i.
  function Absorb(a: WindowAgg, e: ConnEvent): WindowAgg {
    WindowAgg(a.raw + 1, Latest(a.connResetTS, e))
  }

  function Latest(m: map<string, Time>, e: ConnEvent): map<string, Time> {
    if e.connId !in m || e.ts > m[e.connId] then m[e.connId := e.ts] else m
  }

  lemma ResetConnsAdd(E: set<ConnEvent>, e: ConnEvent, o: ConnEvent -> int, i: int)
    ensures ResetConns(E + {e}, o, i) == ResetConns(E, o, i) + if o(e) == i then {e.connId} else {}
  {
  }

  lemma ResetTimesAdd(E: set<ConnEvent>, e: ConnEvent, o: ConnEvent -> int, i: int, c: string)
    ensures ResetTimes(E + {e}, o, i, c)
         == ResetTimes(E, o, i, c) + if o(e) == i && e.connId == c then {e.ts} else {}
    ensures c !in ResetConns(E, o, i) <==> ResetTimes(E, o, i, c) == {}
  {
    if c in ResetConns(E, o, i) {
      var e' :| e' in E && o(e') == i && e'.connId == c;
      assert e'.ts in ResetTimes(E, o, i, c);
    } else if t: int :| t in ResetTimes(E, o, i, c) {
      assert false;
    }
  }

  lemma TimesStep(m: map<string, Time>, E: set<ConnEvent>, e: ConnEvent, o: ConnEvent -> int, i: int)
    requires TimesMatch(m, E, o, i)
    ensures TimesMatch(if o(e) == i then Latest(m, e) else m, E + {e}, o, i)
  {
    ResetConnsAdd(E, e, o, i);
    var m' := if o(e) == i then Latest(m, e) else m;
    forall c | c in m'
      ensures m'[c] in ResetTimes(E + {e}, o, i, c)
      ensures forall t :: t in ResetTimes(E + {e}, o, i, c) ==> t <= m'[c]
    {
      ResetTimesAdd(E, e, o, i, c);
    }
  }

  lemma AggStep(a: WindowAgg, es: seq<ConnEvent>, k: nat, o: ConnEvent -> int, i: int)
    requires k < |es| && AggMatches(a, es[..k], o, i)
    ensures AggMatches(if o(es[k]) == i then Absorb(a, es[k]) else a, es[..k + 1], o, i)
  {
    EventSetSnoc(es, k);
    CountSnoc(es, k, Charged(o, i));
    TimesStep(a.connResetTS, EventSet(es[..k]), es[k], o, i);
  }

  function Mark(m: map<string, set<int>>, c: string, i: int): map<string, set<int>> {
    m[c := (if c in m then m[c] else {}) + {i}]
  }

  lemma ConnWindowsStep(m: map<string, set<int>>, E: set<ConnEvent>, e: ConnEvent, o: ConnEvent -> int)
    requires ConnWindowsMatch(m, E, o)
    ensures ConnWindowsMatch(if o(e) != -1 then Mark(m, e.connId, o(e)) else m, E + {e}, o)
  {
    var E', x := E + {e}, e.connId;
    var m' := if o(e) != -1 then Mark(m, x, o(e)) else m;
    assert AttributedConns(E', o) == AttributedConns(E, o) + if o(e) != -1 then {x} else {};
    assert m'.Keys == AttributedConns(E', o);
    forall c, i | c in m' ensures i in m'[c] <==> i != -1 && c in ResetConns(E', o, i) {
      ResetConnsAdd(E, e, o, i);
      ConnIsAttributed(E, o, i, c);
    }
    assert ConnWindowsMatch(m', E', o);
  }

  lemma ConnIsAttributed(E: set<ConnEvent>, o: ConnEvent -> int, i: int, c: string)
    ensures i != -1 && c in ResetConns(E, o, i) ==> c in AttributedConns(E, o)
  {
  }

  ghost predicate AllMatch(aggs: seq<WindowAgg>, es: seq<ConnEvent>, o: ConnEvent -> int, n: nat) {
    |aggs| == n && forall i :: 0 <= i < n ==> AggMatches(aggs[i], es, o, i)
  }

  // One more event, charged to window o(e) or to none.
  lemma AllStep(aggs: seq<WindowAgg>, es: seq<ConnEvent>, k: nat, o: ConnEvent -> int, n: nat)
    requires k < |es| && AllMatch(aggs, es[..k], o, n) && Bounded(o, n)
    ensures AllMatch(if o(es[k]) != -1 then aggs[o(es[k]) := Absorb(aggs[o(es[k])], es[k])] else aggs, es[..k + 1], o, n)
  {
    assert -1 <= o(es[k]) < n;
    forall i | 0 <= i < n
      ensures AggMatches(if o(es[k]) == i then Absorb(aggs[i], es[k]) else aggs[i], es[..k + 1], o, i)
    {
      AggStep(aggs[i], es, k, o, i);
    }
  }

  // aggs and connWindows of the Go function.
  datatype Tally = Tally(aggs: seq<WindowAgg>, connWindows: map<string, set<int>>)

  ghost predicate TallyMatches(t: Tally, es: seq<ConnEvent>, o: ConnEvent -> int, n: nat) {
    AllMatch(t.aggs, es, o, n) && ConnWindowsMatch(t.connWindows, EventSet(es), o)
  }

  function Charge(t: Tally, idx: int, e: ConnEvent): Tally
    requires 0 <= idx < |t.aggs|
  {
    Tally(t.aggs[idx := Absorb(t.aggs[idx], e)], Mark(t.connWindows, e.connId, idx))
  }

  lemma TallyStep(t: Tally, es: seq<ConnEvent>, k: nat, o: ConnEvent -> int, n: nat)
    requires k < |es| && TallyMatches(t, es[..k], o, n) && Bounded(o, n)
    ensures -1 <= o(es[k]) < |t.aggs|
    ensures TallyMatches(if o(es[k]) != -1 then Charge(t, o(es[k]), es[k]) else t, es[..k + 1], o, n)
  {
    assert -1 <= o(es[k]) < n;
    AllStep(t.aggs, es, k, o, n);
    EventSetSnoc(es, k);
    ConnWindowsStep(t.connWindows, EventSet(es[..k]), es[k], o);
  }

  // What becomes of one event.
  datatype Fate = Ignored | DiedEarly | NoWindow | ChargedTo(idx: int)

  method Judge(ev: ConnEvent, windows: seq<RollWindow>, eps: Duration, haveMinDrain: bool, minDrain: Time) returns (fate: Fate)
    requires IsEarliestDrain(windows, haveMinDrain, minDrain)
    ensures Attributor(windows, eps)(ev) == if fate.ChargedTo? then fate.idx else -1
    ensures EventAnomaly(ev, windows, eps) == match fate
      case DiedEarly => [At(DiedBeforeDrain, ev)]
      case NoWindow => [At(DropOnNonUpgradingNode, ev)]
      case _ => []
    ensures fate.ChargedTo? ==> fate.idx != -1
  {
    if ev.kind != ConnReset && ev.kind != ConnEOF {
      return Ignored;
    }
    assert Early(ev.ts, windows, eps) <==> haveMinDrain && ev.ts < minDrain - eps;
    if haveMinDrain && ev.ts < minDrain - eps {
      EarlyUnowned(ev, windows, eps);
      return DiedEarly;
    }
    if ev.kind != ConnReset {
      return Ignored;
    }
    var idx := AttributeReset(ev.ts, windows, eps);
    if idx < 0 {
      return NoWindow;
    }
    return ChargedTo(idx);
  }

  lemma TallyEmpty(o: ConnEvent -> int, n: nat)
    ensures TallyMatches(Tally(seq(n, i => WindowAgg(0, map[])), map[]), [], o, n)
  {
  }

  lemma EventAnomaliesSnoc(es: seq<ConnEvent>, k: nat, ws: seq<RollWindow>, eps: Duration)
    requires k < |es|
    ensures EventAnomalies(es[..k + 1], ws, eps) == EventAnomalies(es[..k], ws, eps) + EventAnomaly(es[k], ws, eps)
  {
    assert es[..k + 1][..k] == es[..k];
  }

  // What a fate adds to the findings.
  method Record(fate: Fate, ev: ConnEvent, f0: Findings, ghost added: seq<Anomaly>) returns (f: Findings)
    requires f0.Valid()
    requires added == match fate
      case DiedEarly => [At(DiedBeforeDrain, ev)]
      case NoWindow => [At(DropOnNonUpgradingNode, ev)]
      case _ => []
    ensures Extends(f0, f, added)
  {
    match fate
    case DiedEarly => f := AddErr(f0, At(DiedBeforeDrain, ev));
    case NoWindow => f := AddFail(f0, At(DropOnNonUpgradingNode, ev));
    case _ =>
      ExtendsNone(f0);
      f := f0;
  }

  // One turn of the attribution loop.
  method AttributeEvent(events: seq<ConnEvent>, k: nat, windows: seq<RollWindow>, eps: Duration,
                        haveMinDrain: bool, minDrain: Time, tally0: Tally, f0: Findings, ghost o: ConnEvent -> int)
      returns (tally: Tally, f: Findings)
    requires k < |events| && f0.Valid() && IsEarliestDrain(windows, haveMinDrain, minDrain)
    requires o == Attributor(windows, eps) && Bounded(o, |windows|)
    requires TallyMatches(tally0, events[..k], o, |windows|)
    ensures Extends(f0, f, EventAnomaly(events[k], windows, eps))
    ensures TallyMatches(tally, events[..k + 1], o, |windows|)
  {
    TallyStep(tally0, events, k, o, |windows|);
    var fate := Judge(events[k], windows, eps, haveMinDrain, minDrain);
    f := Record(fate, events[k], f0, EventAnomaly(events[k], windows, eps));
    tally := if fate.ChargedTo? then Charge(tally0, fate.idx, events[k]) else tally0;
  }

  method AttributeResets(events: seq<ConnEvent>, windows: seq<RollWindow>, eps: Duration, f0: Findings)
      returns (tally: Tally, f: Findings)
    requires f0.Valid()
    ensures Extends(f0, f, EventAnomalies(events, windows, eps))
    ensures TallyMatches(tally, events, Attributor(windows, eps), |windows|)
  {
    var haveMinDrain, minDrain := EarliestDrain(windows);
    ghost var o := Attributor(windows, eps);
    AttributorBounded(windows, eps);
    TallyEmpty(o, |windows|);
    tally := Tally(seq(|windows|, i => WindowAgg(0, map[])), map[]);
    f := f0;
    for k := 0 to |events|
      invariant Extends(f0, f, EventAnomalies(events[..k], windows, eps))
      invariant TallyMatches(tally, events[..k], o, |windows|)
    {
      ghost var f1 := f;
      tally, f := AttributeEvent(events, k, windows, eps, haveMinDrain, minDrain, tally, f, o);
      EventAnomaliesSnoc(events, k, windows, eps);
      ExtendsTrans(f0, f1, f, EventAnomalies(events[..k], windows, eps), EventAnomaly(events[k], windows, eps));
    }
    assert events[..|events|] == events;
  }

  lemma EarlyUnowned(e: ConnEvent, ws: seq<RollWindow>, eps: Duration)
    requires Early(e.ts, ws, eps)
    ensures Attributor(ws, eps)(e) == -1
  {
    if Attributor(ws, eps)(e) != -1 {
      OwnedNotEarly(e, ws, eps);
      assert false;
    }
  }

  // The ids read so far that were reset in two windows have been flagged, in order.
  ghost predicate FlaggedSoFar(flagged: seq<string>, connWindows: map<string, set<int>>, ids: seq<string>,
                               f0: Findings, f: Findings) {
    && SortedElements(flagged, Repeated(connWindows, ids))
    && Extends(f0, f, SameConnAnomalies(flagged))
  }

  function TwoWindowsOf(c: string): Anomaly {
    Anomaly(SameConnTwoWindows, c, "", None)
  }

  lemma FlagStep(flagged: seq<string>, connWindows: map<string, set<int>>, ids: seq<string>, c: string,
                 f0: Findings, f1: Findings, f: Findings)
    requires FlaggedSoFar(flagged, connWindows, ids, f0, f1)
    requires c in connWindows && |connWindows[c]| >= 2 && Extends(f1, f, [TwoWindowsOf(c)])
    requires forall x :: x in ids ==> StrLess(x, c)
    ensures FlaggedSoFar(flagged + [c], connWindows, ids + [c], f0, f)
  {
    ExtendsTrans(f0, f1, f, SameConnAnomalies(flagged), [TwoWindowsOf(c)]);
    assert SameConnAnomalies(flagged + [c]) == SameConnAnomalies(flagged) + [TwoWindowsOf(c)];
    AppendLargest(flagged, Repeated(connWindows, ids), c);
    assert Repeated(connWindows, ids + [c]) == Repeated(connWindows, ids) + {c};
  }

  lemma SkipStep(flagged: seq<string>, connWindows: map<string, set<int>>, ids: seq<string>, c: string,
                 f0: Findings, f: Findings)
    requires FlaggedSoFar(flagged, connWindows, ids, f0, f) && c in connWindows && |connWindows[c]| < 2
    ensures FlaggedSoFar(flagged, connWindows, ids + [c], f0, f)
  {
    assert Repeated(connWindows, ids + [c]) == Repeated(connWindows, ids);
  }

  lemma FlaggedAll(flagged: seq<string>, connWindows: map<string, set<int>>, ids: seq<string>,
                   E: set<ConnEvent>, o: ConnEvent -> int, n: nat)
    requires ConnWindowsMatch(connWindows, E, o) && Bounded(o, n)
    requires (forall c :: c in ids <==> c in connWindows) && SortedElements(flagged, Repeated(connWindows, ids))
    ensures flagged == SortedSeq(DoubleConns(E, o, n))
  {
    forall c | c in connWindows ensures |connWindows[c]| >= 2 <==> InTwoWindows(E, o, n, c) {
      TwoWindowsMeansTwo(connWindows, E, o, n, c);
    }
    assert Repeated(connWindows, ids) == DoubleConns(E, o, n);
    SortedUnique(flagged, SortedSeq(DoubleConns(E, o, n)), DoubleConns(E, o, n));
  }

  method FlagTwoWindows(connWindows: map<string, set<int>>, ghost E: set<ConnEvent>, ghost o: ConnEvent -> int,
                        ghost n: nat, f0: Findings) returns (f: Findings)
    requires f0.Valid() && ConnWindowsMatch(connWindows, E, o) && Bounded(o, n)
    ensures Extends(f0, f, SameConnAnomalies(SortedSeq(DoubleConns(E, o, n))))
  {
    var ids := SortedKeys(connWindows.Keys);
    ghost var flagged: seq<string> := [];
    f := f0;
    ExtendsNone(f0);
    assert SameConnAnomalies([]) == [];
    for k := 0 to |ids|
      invariant FlaggedSoFar(flagged, connWindows, ids[..k], f0, f)
    {
      ghost var f1 := f;
      var c := ids[k];
      assert c in ids && ids[..k + 1] == ids[..k] + [c];
      if |connWindows[c]| >= 2 {
        f := AddFail(f, TwoWindowsOf(c));
        FlagStep(flagged, connWindows, ids[..k], c, f0, f1, f);
        flagged := flagged + [c];
      } else {
        SkipStep(flagged, connWindows, ids[..k], c, f0, f);
      }
    }
    assert ids[..|ids|] == ids;
    FlaggedAll(flagged, connWindows, ids, E, o, n);
  }

  ghost function Repeated(m: map<string, set<int>>, ids: seq<string>): set<string> {
    set c | c in ids && c in m && |m[c]| >= 2
  }

  ghost predicate Bounded(o: ConnEvent -> int, n: nat) {
    forall e :: -1 <= o(e) < n
  }

  lemma AttributorBounded(ws: seq<RollWindow>, eps: Duration)
    ensures Bounded(Attributor(ws, eps), |ws|)
  {
    forall e ensures -1 <= Attributor(ws, eps)(e) < |ws| {
      if Attributor(ws, eps)(e) != -1 { OwnedNotEarly(e, ws, eps); }
    }
  }

  lemma TwoWindowsMeansTwo(m: map<string, set<int>>, E: set<ConnEvent>, o: ConnEvent -> int, n: nat, c: string)
    requires ConnWindowsMatch(m, E, o) && Bounded(o, n) && c in m
    ensures |m[c]| >= 2 <==> InTwoWindows(E, o, n, c)
  {
    if InTwoWindows(E, o, n, c) {
      var i, j :| 0 <= i < j < n && c in ResetConns(E, o, i) && c in ResetConns(E, o, j);
      assert {i, j} <= m[c];
      SubsetSize({i, j}, m[c]);
    } else if |m[c]| >= 2 {
      var i := Element(m[c]);
      assert m[c] == m[c] - {i} + {i};
      var j := Element(m[c] - {i});
      TwoIndices(m, E, o, n, c, i, j);
    }
  }

  lemma TwoIndices(m: map<string, set<int>>, E: set<ConnEvent>, o: ConnEvent -> int, n: nat, c: string, i: int, j: int)
    requires ConnWindowsMatch(m, E, o) && Bounded(o, n) && c in m && i in m[c] && j in m[c] && i != j
    ensures InTwoWindows(E, o, n, c)
  {
    assert c in ResetConns(E, o, i) && c in ResetConns(E, o, j);
    var a :| a in E && o(a) == i && a.connId == c;
    var b :| b in E && o(b) == j && b.connId == c;
    assert -1 <= o(a) < n && -1 <= o(b) < n;
    var lo, hi := if i < j then i else j, if i < j then j else i;
    assert 0 <= lo < hi < n && c in ResetConns(E, o, lo) && c in ResetConns(E, o, hi);
  }

  lemma {:induction false} SubsetSize<T>(a: set<T>, b: set<T>)
    requires a <= b
    ensures |a| <= |b|
  {
    if a != {} {
      var x :| x in a;
      SubsetSize(a - {x}, b - {x});
    }
  }

  ghost predicate EarliestMatch(m: map<string, Time>, E: set<ConnEvent>) {
    && (forall c :: c in m <==> ReconnectTimes(E, c) != {})
    && forall c :: c in m ==> m[c] == Min(ReconnectTimes(E, c))
  }

  function Earliest(m: map<string, Time>, e: ConnEvent): map<string, Time> {
    if e.connId !in m || e.ts < m[e.connId] then m[e.connId := e.ts] else m
  }

  lemma EarliestStep(m: map<string, Time>, E: set<ConnEvent>, e: ConnEvent)
    requires EarliestMatch(m, E)
    ensures EarliestMatch(if e.kind == ConnReconnected then Earliest(m, e) else m, E + {e})
  {
    var m' := if e.kind == ConnReconnected then Earliest(m, e) else m;
    forall c ensures c in m' <==> ReconnectTimes(E + {e}, c) != {}
             ensures c in m' ==> m'[c] == Min(ReconnectTimes(E + {e}, c))
    {
      var s, s' := ReconnectTimes(E, c), ReconnectTimes(E + {e}, c);
      if e.kind == ConnReconnected && e.connId == c {
        assert s' == s + {e.ts};
        assert m'[c] in s' && forall t :: t in s' ==> m'[c] <= t;
      } else {
        assert s' == s;
      }
    }
  }

  method EarliestReconnects(events: seq<ConnEvent>) returns (m: map<string, Time>)
    ensures EarliestMatch(m, EventSet(events))
  {
    m := map[];
    for k := 0 to |events|
      invariant EarliestMatch(m, EventSet(events[..k]))
    {
      EventSetSnoc(events, k);
      EarliestStep(m, EventSet(events[..k]), events[k]);
      if events[k].kind != ConnReconnected {
        continue;
      }
      m := Earliest(m, events[k]);
    }
    assert events[..|events|] == events;
  }

  // A running maximum over the set s; `have` is false while s is empty.
  ghost predicate RunningMax(have: bool, m: int, s: set<int>) {
    (have <==> s != {}) && (have ==> m == Max(s))
  }

  lemma RunningMaxStep(have: bool, m: int, s: set<int>, x: int)
    requires RunningMax(have, m, s)
    ensures RunningMax(true, if !have || x > m then x else m, s + {x})
  {
    var m' := if !have || x > m then x else m;
    assert m' in s + {x};
    assert Max(s + {x}) == m';
  }

  // Some connection in seen has not come back.
  ghost predicate Missing(seen: set<string>, E: set<ConnEvent>, o: ConnEvent -> int, i: int) {
    exists c :: c in seen && Gap(E, o, i, c).None?
  }

  lemma GapStep(seen: set<string>, c: string, gaps0: set<Duration>, E: set<ConnEvent>, o: ConnEvent -> int, i: int)
    ensures Gap(E, o, i, c).None? ==>
              GapsOf(seen + {c}, E, o, i) == GapsOf(seen, E, o, i) && Missing(seen + {c}, E, o, i)
    ensures Gap(E, o, i, c).Some? ==>
              && GapsOf(seen + {c}, E, o, i) == GapsOf(seen, E, o, i) + {Gap(E, o, i, c).value}
              && gaps0 + GapsOf(seen + {c}, E, o, i) == gaps0 + GapsOf(seen, E, o, i) + {Gap(E, o, i, c).value}
              && (Missing(seen + {c}, E, o, i) <==> Missing(seen, E, o, i))
  {
  }

  // What the inner loop carries: the window's own maximum and the run's.
  datatype Scan = Scan(recovered: bool, winHave: bool, winMax: Duration, have: bool, max: Duration)

  ghost predicate ScanMatches(s: Scan, seen: set<string>, gaps0: set<Duration>,
                              E: set<ConnEvent>, o: ConnEvent -> int, i: int) {
    && (s.recovered <==> !Missing(seen, E, o, i))
    && RunningMax(s.winHave, s.winMax, GapsOf(seen, E, o, i))
    && RunningMax(s.have, s.max, gaps0 + GapsOf(seen, E, o, i))
  }

  function ScanStep(s: Scan, gap: Option<Duration>): Scan {
    match gap
    case None => s.(recovered := false)
    case Some(g) => Scan(s.recovered, true, if !s.winHave || g > s.winMax then g else s.winMax,
                         true, if !s.have || g > s.max then g else s.max)
  }

  lemma ScanStepMatches(s: Scan, seen: set<string>, c: string, gaps0: set<Duration>,
                        E: set<ConnEvent>, o: ConnEvent -> int, i: int)
    requires ScanMatches(s, seen, gaps0, E, o, i)
    ensures ScanMatches(ScanStep(s, Gap(E, o, i, c)), seen + {c}, gaps0, E, o, i)
  {
    GapStep(seen, c, gaps0, E, o, i);
    if Gap(E, o, i, c).Some? {
      RunningMaxStep(s.winHave, s.winMax, GapsOf(seen, E, o, i), Gap(E, o, i, c).value);
      RunningMaxStep(s.have, s.max, gaps0 + GapsOf(seen, E, o, i), Gap(E, o, i, c).value);
    }
  }

  // From the latest reset to the earliest reconnect, read off the maps.
  function GapOf(resets: map<string, Time>, reconnects: map<string, Time>, c: string): Option<Duration>
    requires c in resets
  {
    if c !in reconnects || reconnects[c] < resets[c] then None else Some(reconnects[c] - resets[c])
  }

  lemma GapIs(resets: map<string, Time>, reconnects: map<string, Time>, E: set<ConnEvent>, o: ConnEvent -> int,
              i: nat, c: string)
    requires TimesMatch(resets, E, o, i) && EarliestMatch(reconnects, E) && c in resets
    ensures Gap(E, o, i, c) == GapOf(resets, reconnects, c)
  {
    assert resets[c] == Max(ResetTimes(E, o, i, c));
  }

  // One turn of the scan.
  lemma ScanTurn(s: Scan, seen: set<string>, c: string, gaps0: set<Duration>, resets: map<string, Time>,
                 reconnects: map<string, Time>, E: set<ConnEvent>, o: ConnEvent -> int, i: nat)
    requires TimesMatch(resets, E, o, i) && EarliestMatch(reconnects, E) && c in resets
    requires ScanMatches(s, seen, gaps0, E, o, i)
    ensures ScanMatches(ScanStep(s, GapOf(resets, reconnects, c)), seen + {c}, gaps0, E, o, i)
  {
    GapIs(resets, reconnects, E, o, i, c);
    ScanStepMatches(s, seen, c, gaps0, E, o, i);
  }

  lemma ScanStart(have0: bool, max0: Duration, gaps0: set<Duration>, E: set<ConnEvent>, o: ConnEvent -> int, i: nat)
    requires RunningMax(have0, max0, gaps0)
    ensures ScanMatches(Scan(true, false, 0, have0, max0), {}, gaps0, E, o, i)
  {
    assert GapsOf({}, E, o, i) == {} && gaps0 + {} == gaps0;
  }

  function Elements(s: seq<string>): set<string> {
    set c | c in s
  }

  lemma ElementsSnoc(s: seq<string>, k: nat)
    requires k < |s|
    ensures Elements(s[..k + 1]) == Elements(s[..k]) + {s[k]}
  {
    assert s[..k + 1] == s[..k] + [s[k]];
  }

  method ScanWindow(resets: map<string, Time>, reconnects: map<string, Time>, have0: bool, max0: Duration,
                    ghost E: set<ConnEvent>, ghost o: ConnEvent -> int, ghost i: nat, ghost gaps0: set<Duration>)
      returns (s: Scan)
    requires TimesMatch(resets, E, o, i) && EarliestMatch(reconnects, E)
    requires RunningMax(have0, max0, gaps0)
    ensures ScanMatches(s, ResetConns(E, o, i), gaps0, E, o, i)
  {
    s := Scan(true, false, 0, have0, max0);
    ScanStart(have0, max0, gaps0, E, o, i);
    var ids := SortedKeys(resets.Keys);
    for k := 0 to |ids|
      invariant ScanMatches(s, Elements(ids[..k]), gaps0, E, o, i)
    {
      assert ids[k] in ids;
      ElementsSnoc(ids, k);
      ScanTurn(s, Elements(ids[..k]), ids[k], gaps0, resets, reconnects, E, o, i);
      s := ScanStep(s, GapOf(resets, reconnects, ids[k]));
    }
    assert Elements(ids[..|ids|]) == ResetConns(E, o, i) by { assert ids[..|ids|] == ids; }
  }

  // The row that a finished scan stands for.
  function RowOf(w: RollWindow, agg: WindowAgg, s: Scan): PerNodeAttribution {
    var distinct := |agg.connResetTS|;
    var recovered := s.recovered && distinct != 0;
    PerNodeAttribution(
      w.node, WindowJson(w.drainingAt, w.graceExpiresAt, w.readyAt), agg.raw, distinct, recovered,
      if s.winHave && recovered then Some(s.winMax) else None)
  }

  lemma RowIs(w: RollWindow, agg: WindowAgg, s: Scan, es: seq<ConnEvent>, o: ConnEvent -> int, i: nat, gaps0: set<Duration>)
    requires AggMatches(agg, es, o, i) && ScanMatches(s, ResetConns(EventSet(es), o, i), gaps0, EventSet(es), o, i)
    ensures RowOf(w, agg, s) == Attribution(es, o, w, i)
    ensures s.recovered <==> !WindowUnrecovered(EventSet(es), o, i)
  {
    assert |agg.connResetTS| == |agg.connResetTS.Keys|;
  }

  method SummarizeWindow(w: RollWindow, agg: WindowAgg, reconnectByConn: map<string, Time>,
                         anyUnrecovered0: bool, haveRecovery0: bool, maxRecovery0: Duration,
                         ghost es: seq<ConnEvent>, ghost o: ConnEvent -> int, ghost i: nat, ghost gaps0: set<Duration>)
      returns (pna: PerNodeAttribution, anyUnrecovered: bool, haveRecovery: bool, maxRecovery: Duration)
    requires AggMatches(agg, es, o, i) && EarliestMatch(reconnectByConn, EventSet(es))
    requires RunningMax(haveRecovery0, maxRecovery0, gaps0)
    ensures pna == Attribution(es, o, w, i)
    ensures anyUnrecovered <==> anyUnrecovered0 || WindowUnrecovered(EventSet(es), o, i)
    ensures RunningMax(haveRecovery, maxRecovery, gaps0 + WindowGaps(EventSet(es), o, i))
  {
    var s := ScanWindow(agg.connResetTS, reconnectByConn, haveRecovery0, maxRecovery0, EventSet(es), o, i, gaps0);
    RowIs(w, agg, s, es, o, i, gaps0);
    anyUnrecovered := anyUnrecovered0 || !s.recovered;
    haveRecovery, maxRecovery := s.have, s.max;
    pna := RowOf(w, agg, s);
  }

  lemma AttributionsSnoc(es: seq<ConnEvent>, o: ConnEvent -> int, ws: seq<RollWindow>, i: nat)
    requires i < |ws|
    ensures Attributions(es, o, ws[..i + 1]) == Attributions(es, o, ws[..i]) + [Attribution(es, o, ws[i], i)]
  {
  }

  lemma UnrecoveredStep(E: set<ConnEvent>, o: ConnEvent -> int, i: nat)
    ensures AnyUnrecovered(E, o, i + 1) <==> AnyUnrecovered(E, o, i) || WindowUnrecovered(E, o, i)
  {
  }

  method BuildAttribution(windows: seq<RollWindow>, aggs: seq<WindowAgg>, reconnectByConn: map<string, Time>,
                          ghost es: seq<ConnEvent>, ghost o: ConnEvent -> int)
      returns (ps: seq<PerNodeAttribution>, affected: nat, anyUnrecovered: bool,
               haveRecovery: bool, maxRecovery: Duration)
    requires AllMatch(aggs, es, o, |windows|)
    requires EarliestMatch(reconnectByConn, EventSet(es))
    ensures ps == Attributions(es, o, windows)
    ensures affected == Count(ps, Affected())
    ensures anyUnrecovered <==> AnyUnrecovered(EventSet(es), o, |windows|)
    ensures RunningMax(haveRecovery, maxRecovery, AllGaps(EventSet(es), o, |windows|))
  {
    ps, affected, anyUnrecovered, haveRecovery, maxRecovery := [], 0, false, false, 0;
    for i := 0 to |windows|
      invariant ps == Attributions(es, o, windows[..i])
      invariant affected == Count(ps, Affected())
      invariant anyUnrecovered <==> AnyUnrecovered(EventSet(es), o, i)
      invariant RunningMax(haveRecovery, maxRecovery, AllGaps(EventSet(es), o, i))
    {
      var pna;
      pna, anyUnrecovered, haveRecovery, maxRecovery :=
        SummarizeWindow(windows[i], aggs[i], reconnectByConn, anyUnrecovered, haveRecovery, maxRecovery,
                        es, o, i, AllGaps(EventSet(es), o, i));
      AttributionsSnoc(es, o, windows, i);
      UnrecoveredStep(EventSet(es), o, i);
      CountAppend(ps, pna, Affected());
      ps := ps + [pna];
      if pna.distinctConnsReset >= 1 {
        affected := affected + 1;
      }
    }
    assert windows[..|windows|] == windows;
  }

  method CountAffectedNodes(ps: seq<PerNodeAttribution>) returns (n: nat)
    ensures n == |AffectedNodes(ps)|
  {
    var nodes: set<string> := {};
    for k := 0 to |ps|
      invariant nodes == AffectedNodes(ps[..k])
    {
      assert ps[..k + 1] == ps[..k] + [ps[k]];
      if ps[k].distinctConnsReset >= 1 {
        nodes := nodes + {ps[k].node};
      }
    }
    assert ps[..|ps|] == ps;
    return |nodes|;
  }

  // Before anything was flagged.
  const Nothing := Findings([], [], [])

  method FlagPrereq(cfg: Config, f0: Findings) returns (f: Findings)
    requires f0.Valid()
    ensures Extends(f0, f, PrereqAnomalies(cfg))
  {
    f := f0;
    ExtendsNone(f0);
    if cfg.triggerPrereqError != "" {
      f := AddErr(f, Plain(TriggerPrereqMissing));
    }
  }

  method FlagNoRollout(cfg: Config, windows: seq<RollWindow>, f0: Findings) returns (f: Findings)
    requires f0.Valid()
    ensures Extends(f0, f, NoRolloutAnomalies(cfg, windows))
  {
    f := f0;
    ExtendsNone(f0);
    if cfg.triggerFired && |windows| == 0 {
      f := AddErr(f, Plain(NoRolloutObserved));
    }
  }

  method FlagPrerequisites(cfg: Config, windows: seq<RollWindow>, f0: Findings) returns (f: Findings)
    requires f0.Valid()
    ensures Extends(f0, f, PrereqAnomalies(cfg) + NoRolloutAnomalies(cfg, windows))
  {
    f := FlagPrereq(cfg, f0);
    ghost var f1 := f;
    f := FlagNoRollout(cfg, windows, f);
    ExtendsTrans(f0, f1, f, PrereqAnomalies(cfg), NoRolloutAnomalies(cfg, windows));
  }

  // What the recovery block reports and flags, from the loss flag and the running maximum.
  lemma RecoveryBlock(cfg: Config, anyUnrecovered: bool, haveRecovery: bool, maxRecovery: Duration,
                      E: set<ConnEvent>, o: ConnEvent -> int, n: nat)
    requires anyUnrecovered <==> AnyUnrecovered(E, o, n)
    requires RunningMax(haveRecovery, maxRecovery, AllGaps(E, o, n))
    ensures MaxRecovery(E, o, n) == if !anyUnrecovered && haveRecovery then Some(maxRecovery) else None
    ensures RecoveryAnomalies(E, o, n, cfg)
         == if anyUnrecovered then [Plain(PoolNotRecovered)]
            else if haveRecovery && maxRecovery > cfg.recoveryBoundSeconds * SECOND then [Plain(RecoveryOverBound)]
            else []
  {
  }

  method FlagRecovery(cfg: Config, anyUnrecovered: bool, haveRecovery: bool, maxRecovery: Duration,
                      ghost E: set<ConnEvent>, ghost o: ConnEvent -> int, ghost n: nat, f0: Findings)
      returns (recovery: Option<Duration>, f: Findings)
    requires f0.Valid()
    requires anyUnrecovered <==> AnyUnrecovered(E, o, n)
    requires RunningMax(haveRecovery, maxRecovery, AllGaps(E, o, n))
    ensures recovery == MaxRecovery(E, o, n)
    ensures Extends(f0, f, RecoveryAnomalies(E, o, n, cfg))
  {
    RecoveryBlock(cfg, anyUnrecovered, haveRecovery, maxRecovery, E, o, n);
    f, recovery := f0, None;
    ExtendsNone(f0);
    if anyUnrecovered {
      f := AddFail(f, Plain(PoolNotRecovered));
    } else if haveRecovery {
      recovery := Some(maxRecovery);
      if maxRecovery > cfg.recoveryBoundSeconds * SECOND {
        f := AddFail(f, Plain(RecoveryOverBound));
      }
    }
  }

  method FlagNewConns(newConnFailures: nat, ghost es: seq<ConnEvent>, f0: Findings) returns (f: Findings)
    requires f0.Valid() && newConnFailures == Count(es, OfKind(NewConnAttemptFail))
    ensures Extends(f0, f, NewConnAnomalies(es))
  {
    f := f0;
    ExtendsNone(f0);
    if newConnFailures > 0 {
      f := AddFail(f, Plain(NewConnFailure));
    }
  }

  // The findings of the trigger and the windows alone.
  method FlagWindows(in_: Input) returns (f: Findings)
    ensures Extends(Nothing, f, WindowAnomalies(in_))
  {
    var cfg, windows, eps := in_.config, in_.windows, in_.config.jitterTolerance;
    f := FlagPrerequisites(cfg, windows, Nothing);
    ghost var f1 := f;
    f := FlagHalfOpen(windows, f);
    ExtendsTrans(Nothing, f1, f, PrereqAnomalies(cfg) + NoRolloutAnomalies(cfg, windows), HalfOpenAnomalies(windows));
    ghost var f2 := f;
    f := FlagOverlaps(windows, eps, f);
    ExtendsTrans(Nothing, f2, f, PrereqAnomalies(cfg) + NoRolloutAnomalies(cfg, windows) + HalfOpenAnomalies(windows),
                 OverlapAnomalies(windows, eps, |windows|));
  }

  lemma ExtendsFive(f1: Findings, f2: Findings, f3: Findings, f4: Findings, f: Findings,
                    a: seq<Anomaly>, b: seq<Anomaly>, c: seq<Anomaly>, d: seq<Anomaly>, e: seq<Anomaly>)
    requires Extends(Nothing, f1, a) && Extends(f1, f2, b) && Extends(f2, f3, c) && Extends(f3, f4, d) && Extends(f4, f, e)
    ensures Extends(Nothing, f, a + b + c + d + e)
  {
    ExtendsTrans(Nothing, f1, f2, a, b);
    ExtendsTrans(Nothing, f2, f3, a + b, c);
    ExtendsTrans(Nothing, f3, f4, a + b + c, d);
    ExtendsTrans(Nothing, f4, f, a + b + c + d, e);
  }

  /** The whole verdict engine: every field of the result is the one the specification names. */
  method Analyze(in_: Input) returns (res: Result)
    ensures res == Outcome(in_)
  {
    var cfg, events, windows := in_.config, in_.events, in_.windows;
    var eps := cfg.jitterTolerance;
    ghost var E, o, n := EventSet(events), Attributor(windows, eps), |windows|;
    AttributorBounded(windows, eps);

    var newConnFailures, existingConnRSTs := CountRaw(events);
    var f := FlagWindows(in_);
    ghost var f1 := f;
    var tally;
    tally, f := AttributeResets(events, windows, eps, f);
    ghost var f2 := f;
    f := FlagTwoWindows(tally.connWindows, E, o, n, f);
    ghost var f3 := f;
    var reconnectByConn := EarliestReconnects(events);
    var ps, affected, anyUnrecovered, haveRecovery, maxRecovery :=
      BuildAttribution(windows, tally.aggs, reconnectByConn, events, o);
    var sorted := StableSort(ps);
    var nodesAffected := CountAffectedNodes(sorted);
    SortKeepsNodes(ps);
    var recovery;
    recovery, f := FlagRecovery(cfg, anyUnrecovered, haveRecovery, maxRecovery, E, o, n, f);
    ghost var f4 := f;
    f := FlagNewConns(newConnFailures, events, f);
    ExtendsFive(f1, f2, f3, f4, f, WindowAnomalies(in_), EventAnomalies(events, windows, eps),
                SameConnAnomalies(SortedSeq(DoubleConns(E, o, n))), RecoveryAnomalies(E, o, n, cfg), NewConnAnomalies(events));
    assert f.anomalies == Anomalies(in_);
    res := Result(
      SCHEMA_VERSION, VerdictOf(f.errors, f.fails), ReasonOf(f.errors, f.fails), in_.trigger,
      newConnFailures, existingConnRSTs, affected, nodesAffected,
      recovery, cfg.recoveryBoundSeconds, sorted,
      if cfg.appACorroboration.Some? then cfg.appACorroboration.value
      else Corroboration(false, "no app-a corroboration available"),
      f.anomalies);
  }

  lemma SortKeepsNodes(ps: seq<PerNodeAttribution>)
    ensures AffectedNodes(StableSort(ps)) == AffectedNodes(ps)
  {
    SortKeeps(ps);
  }
}
