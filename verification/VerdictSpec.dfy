/**
 * What a verdict means, stated over the collected events and the roll windows without loops.
 * Whatever does not count occurrences reads the events as a set, so it cannot depend on
 * their order.
 */
module VerdictSpec {
  import opened Wrappers
  import opened Model
  import opened Collections

  ghost function EventSet(es: seq<ConnEvent>): set<ConnEvent> {
    set e | e in es
  }

  // ---------------------------------------------------------------- ownership

  predicate InWidened(t: Time, w: RollWindow, eps: Duration) {
    w.drainingAt - eps <= t <= w.graceExpiresAt + eps
  }

  // The first of the widened windows around t whose drain began last.
  ghost predicate IsOwner(i: int, t: Time, ws: seq<RollWindow>, eps: Duration) {
    && 0 <= i < |ws|
    && InWidened(t, ws[i], eps)
    && forall j :: 0 <= j < |ws| && InWidened(t, ws[j], eps) ==>
         ws[j].drainingAt < ws[i].drainingAt || (ws[j].drainingAt == ws[i].drainingAt && i <= j)
  }

  ghost function Owner(t: Time, ws: seq<RollWindow>, eps: Duration): int {
    if exists i :: IsOwner(i, t, ws, eps) then
      var i :| IsOwner(i, t, ws, eps);
      i
    else -1
  }

  // Every instant inside some widened window has exactly one owner.
  lemma {:induction false} OwnerExists(t: Time, ws: seq<RollWindow>, eps: Duration, j: int)
    requires 0 <= j < |ws| && InWidened(t, ws[j], eps)
    ensures IsOwner(Owner(t, ws, eps), t, ws, eps)
  {
    var best := j;
    var k := 0;
    while k < |ws|
      invariant 0 <= k <= |ws| && 0 <= best < |ws| && InWidened(t, ws[best], eps)
      invariant forall l :: 0 <= l < k && InWidened(t, ws[l], eps) ==>
                  ws[l].drainingAt < ws[best].drainingAt
                  || (ws[l].drainingAt == ws[best].drainingAt && best <= l)
    {
      if InWidened(t, ws[k], eps)
         && (ws[k].drainingAt > ws[best].drainingAt
             || (ws[k].drainingAt == ws[best].drainingAt && k < best)) {
        best := k;
      }
      k := k + 1;
    }
    assert IsOwner(best, t, ws, eps);
  }

  // ------------------------------------------------- classification of events

  ghost predicate Early(t: Time, ws: seq<RollWindow>, eps: Duration) {
    ws != [] && forall w :: w in ws ==> t < w.drainingAt - eps
  }

  predicate IsClose(e: ConnEvent) {
    e.kind == ConnReset || e.kind == ConnEOF
  }

  ghost predicate Died(e: ConnEvent, ws: seq<RollWindow>, eps: Duration) {
    IsClose(e) && Early(e.ts, ws, eps)
  }

  // The window index a reset is charged to; -1 for a reset in no window and for any other event.
  ghost function Attributor(ws: seq<RollWindow>, eps: Duration): ConnEvent -> int {
    (e: ConnEvent) => if e.kind == ConnReset then Owner(e.ts, ws, eps) else -1
  }

  ghost predicate Dropped(e: ConnEvent, ws: seq<RollWindow>, eps: Duration) {
    e.kind == ConnReset && !Early(e.ts, ws, eps) && Attributor(ws, eps)(e) == -1
  }

  lemma OwnedNotEarly(e: ConnEvent, ws: seq<RollWindow>, eps: Duration)
    requires Attributor(ws, eps)(e) != -1
    ensures e.kind == ConnReset && IsOwner(Attributor(ws, eps)(e), e.ts, ws, eps)
    ensures !Early(e.ts, ws, eps)
  {
    var i := Attributor(ws, eps)(e);
    assert ws[i] in ws;
  }

  function OfKind(k: EventKind): ConnEvent -> bool {
    (e: ConnEvent) => e.kind == k
  }

  function Charged(o: ConnEvent -> int, i: int): ConnEvent -> bool {
    (e: ConnEvent) => o(e) == i
  }

  // ------------------------------------------------------- resets and recovery
  // Below, o attributes events to window indices and n is the number of windows.

  ghost function ResetConns(E: set<ConnEvent>, o: ConnEvent -> int, i: int): set<string> {
    set e | e in E && o(e) == i :: e.connId
  }

  ghost function ResetTimes(E: set<ConnEvent>, o: ConnEvent -> int, i: int, c: string): set<Time> {
    set e | e in E && o(e) == i && e.connId == c :: e.ts
  }

  ghost function ReconnectTimes(E: set<ConnEvent>, c: string): set<Time> {
    set e | e in E && e.kind == ConnReconnected && e.connId == c :: e.ts
  }

  // From the latest reset of c in window i to the earliest reconnect of c.
  ghost function Gap(E: set<ConnEvent>, o: ConnEvent -> int, i: int, c: string): Option<Duration> {
    var resets := ResetTimes(E, o, i, c);
    var back := ReconnectTimes(E, c);
    if resets == {} || back == {} || Min(back) < Max(resets) then None
    else Some(Min(back) - Max(resets))
  }

  ghost function GapsOf(conns: set<string>, E: set<ConnEvent>, o: ConnEvent -> int, i: int): set<Duration> {
    set c | c in conns && Gap(E, o, i, c).Some? :: Gap(E, o, i, c).value
  }

  ghost function WindowGaps(E: set<ConnEvent>, o: ConnEvent -> int, i: int): set<Duration> {
    GapsOf(ResetConns(E, o, i), E, o, i)
  }

  ghost predicate WindowUnrecovered(E: set<ConnEvent>, o: ConnEvent -> int, i: int) {
    exists c :: c in ResetConns(E, o, i) && Gap(E, o, i, c).None?
  }

  ghost function AllGaps(E: set<ConnEvent>, o: ConnEvent -> int, n: nat): set<Duration> {
    if n == 0 then {} else AllGaps(E, o, n - 1) + WindowGaps(E, o, n - 1)
  }

  ghost predicate AnyUnrecovered(E: set<ConnEvent>, o: ConnEvent -> int, n: nat) {
    exists i :: 0 <= i < n && WindowUnrecovered(E, o, i)
  }

  ghost predicate InTwoWindows(E: set<ConnEvent>, o: ConnEvent -> int, n: nat, c: string) {
    exists i, j :: 0 <= i < j < n && c in ResetConns(E, o, i) && c in ResetConns(E, o, j)
  }

  ghost function AttributedConns(E: set<ConnEvent>, o: ConnEvent -> int): set<string> {
    set e | e in E && o(e) != -1 :: e.connId
  }

  ghost function DoubleConns(E: set<ConnEvent>, o: ConnEvent -> int, n: nat): set<string> {
    set c | c in AttributedConns(E, o) && InTwoWindows(E, o, n, c)
  }

  ghost predicate CrossNodeOverlap(a: RollWindow, b: RollWindow, eps: Duration) {
    && a.node != b.node
    && a.graceExpiresAt - a.drainingAt > eps && a.graceExpiresAt - b.drainingAt > eps
    && b.graceExpiresAt - a.drainingAt > eps && b.graceExpiresAt - b.drainingAt > eps
  }

  // ---------------------------------------------------------------- anomalies

  function Plain(r: Reason): Anomaly {
    Anomaly(r, "", "", None)
  }

  function At(r: Reason, e: ConnEvent): Anomaly {
    Anomaly(r, e.connId, e.node, Some(e.ts))
  }

  function HalfOpenOf(w: RollWindow): seq<Anomaly> {
    if w.readyAt.None? then [Anomaly(HalfOpenWindow, "", w.node, Some(w.drainingAt))] else []
  }

  function HalfOpenAnomalies(ws: seq<RollWindow>): seq<Anomaly> {
    if ws == [] then [] else HalfOpenAnomalies(ws[..|ws| - 1]) + HalfOpenOf(ws[|ws| - 1])
  }

  ghost function PairAnomaly(a: RollWindow, b: RollWindow, eps: Duration): seq<Anomaly> {
    if CrossNodeOverlap(a, b, eps)
    then [Anomaly(OverlappingNodeWindows, "", a.node, Some(if a.drainingAt < b.drainingAt then b.drainingAt else a.drainingAt))]
    else []
  }

  // Pairs (i, j) with j < n, for one i.
  ghost function RowOverlaps(ws: seq<RollWindow>, eps: Duration, i: nat, n: nat): seq<Anomaly>
    requires i < n <= |ws|
    decreases n
  {
    if n == i + 1 then [] else RowOverlaps(ws, eps, i, n - 1) + PairAnomaly(ws[i], ws[n - 1], eps)
  }

  ghost function OverlapAnomalies(ws: seq<RollWindow>, eps: Duration, rows: nat): seq<Anomaly>
    requires rows <= |ws|
  {
    if rows == 0 then []
    else OverlapAnomalies(ws, eps, rows - 1) + RowOverlaps(ws, eps, rows - 1, |ws|)
  }

  ghost function EventAnomaly(e: ConnEvent, ws: seq<RollWindow>, eps: Duration): seq<Anomaly> {
    if Died(e, ws, eps) then [At(DiedBeforeDrain, e)]
    else if Dropped(e, ws, eps) then [At(DropOnNonUpgradingNode, e)]
    else []
  }

  ghost function EventAnomalies(es: seq<ConnEvent>, ws: seq<RollWindow>, eps: Duration): seq<Anomaly> {
    if es == [] then []
    else EventAnomalies(es[..|es| - 1], ws, eps) + EventAnomaly(es[|es| - 1], ws, eps)
  }

  function SameConnAnomalies(conns: seq<string>): seq<Anomaly> {
    seq(|conns|, k requires 0 <= k < |conns| => Anomaly(SameConnTwoWindows, conns[k], "", None))
  }

  function PrereqAnomalies(cfg: Config): seq<Anomaly> {
    if cfg.triggerPrereqError != "" then [Plain(TriggerPrereqMissing)] else []
  }

  function NoRolloutAnomalies(cfg: Config, ws: seq<RollWindow>): seq<Anomaly> {
    if cfg.triggerFired && ws == [] then [Plain(NoRolloutObserved)] else []
  }

  ghost function RecoveryAnomalies(E: set<ConnEvent>, o: ConnEvent -> int, n: nat, cfg: Config): seq<Anomaly> {
    var gaps := AllGaps(E, o, n);
    if AnyUnrecovered(E, o, n) then [Plain(PoolNotRecovered)]
    else if gaps != {} && Max(gaps) > cfg.recoveryBoundSeconds * SECOND then [Plain(RecoveryOverBound)]
    else []
  }

  function NewConnAnomalies(es: seq<ConnEvent>): seq<Anomaly> {
    if Count(es, OfKind(NewConnAttemptFail)) > 0 then [Plain(NewConnFailure)] else []
  }

  ghost function WindowAnomalies(in_: Input): seq<Anomaly> {
    PrereqAnomalies(in_.config) + NoRolloutAnomalies(in_.config, in_.windows)
    + HalfOpenAnomalies(in_.windows)
    + OverlapAnomalies(in_.windows, in_.config.jitterTolerance, |in_.windows|)
  }

  ghost function Anomalies(in_: Input): seq<Anomaly> {
    var E, ws, eps := EventSet(in_.events), in_.windows, in_.config.jitterTolerance;
    var o := Attributor(ws, eps);
    WindowAnomalies(in_)
    + EventAnomalies(in_.events, ws, eps)
    + SameConnAnomalies(SortedSeq(DoubleConns(E, o, |ws|)))
    + RecoveryAnomalies(E, o, |ws|, in_.config)
    + NewConnAnomalies(in_.events)
  }

  // ------------------------------------------------------------------ verdict

  function OfClass(anomalies: seq<Anomaly>, error: bool): seq<Anomaly> {
    if anomalies == [] then []
    else
      var n := |anomalies| - 1;
      OfClass(anomalies[..n], error)
      + if anomalies[n].reason.IsError() == error then [anomalies[n]] else []
  }

  function VerdictOf(errors: seq<Anomaly>, fails: seq<Anomaly>): Verdict {
    if errors != [] then ERROR else if fails != [] then FAIL else PASS
  }

  function ReasonOf(errors: seq<Anomaly>, fails: seq<Anomaly>): Option<Reason> {
    if errors != [] then Some(errors[0].reason)
    else if fails != [] then Some(fails[0].reason)
    else None
  }

  // -------------------------------------------------------------- attribution

  ghost function Attribution(es: seq<ConnEvent>, o: ConnEvent -> int, w: RollWindow, i: nat): PerNodeAttribution {
    var E := EventSet(es);
    var conns, gaps := ResetConns(E, o, i), WindowGaps(E, o, i);
    var recovered := conns != {} && !WindowUnrecovered(E, o, i);
    PerNodeAttribution(
      w.node, WindowJson(w.drainingAt, w.graceExpiresAt, w.readyAt),
      Count(es, Charged(o, i)), |conns|, recovered,
      if recovered && gaps != {} then Some(Max(gaps)) else None)
  }

  ghost function Attributions(es: seq<ConnEvent>, o: ConnEvent -> int, ws: seq<RollWindow>): seq<PerNodeAttribution> {
    seq(|ws|, i requires 0 <= i < |ws| => Attribution(es, o, ws[i], i))
  }

  predicate Before(a: PerNodeAttribution, b: PerNodeAttribution) {
    if a.node != b.node then StrLess(a.node, b.node)
    else a.window.drainingAt < b.window.drainingAt
  }

  function InsertAttribution(s: seq<PerNodeAttribution>, x: PerNodeAttribution): seq<PerNodeAttribution> {
    if s == [] || !Before(x, s[|s| - 1]) then s + [x]
    else InsertAttribution(s[..|s| - 1], x) + [s[|s| - 1]]
  }

  // Go's sort.SliceStable under Before; AttributionOrder proves it sorts, permutes and is stable.
  function StableSort(s: seq<PerNodeAttribution>): seq<PerNodeAttribution> {
    if s == [] then []
    else InsertAttribution(StableSort(s[..|s| - 1]), s[|s| - 1])
  }

  function Affected(): PerNodeAttribution -> bool {
    (p: PerNodeAttribution) => p.distinctConnsReset >= 1
  }

  function AffectedNodes(ps: seq<PerNodeAttribution>): set<string> {
    set p | p in ps && p.distinctConnsReset >= 1 :: p.node
  }

  ghost function MaxRecovery(E: set<ConnEvent>, o: ConnEvent -> int, n: nat): Option<Duration> {
    if AnyUnrecovered(E, o, n) || AllGaps(E, o, n) == {} then None else Some(Max(AllGaps(E, o, n)))
  }

  ghost function Outcome(in_: Input): Result {
    var es, ws, eps := in_.events, in_.windows, in_.config.jitterTolerance;
    var found := Anomalies(in_);
    var errors, fails := OfClass(found, true), OfClass(found, false);
    var o := Attributor(ws, eps);
    var ps := Attributions(es, o, ws);
    Result(
      SCHEMA_VERSION, VerdictOf(errors, fails), ReasonOf(errors, fails), in_.trigger,
      Count(es, OfKind(NewConnAttemptFail)), Count(es, OfKind(ConnReset)),
      Count(ps, Affected()), |AffectedNodes(ps)|,
      MaxRecovery(EventSet(es), o, |ws|), in_.config.recoveryBoundSeconds,
      StableSort(ps),
      if in_.config.appACorroboration.Some? then in_.config.appACorroboration.value
      else Corroboration(false, "no app-a corroboration available"),
      found)
  }
}
