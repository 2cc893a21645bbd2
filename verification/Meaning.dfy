/**
 * What a result means, said of the events and the windows themselves: inequalities between their
 * instants, no aggregate and no list that the analyzer builds.
 */
module Meaning {
  import opened Wrappers
  import opened Model
  import opened Collections
  import opened VerdictSpec
  import opened AttributionOrder
  import opened Diagnosis

  // ------------------------------------------------------------------ instants

  // t lies in window w, widened by eps at either end.
  predicate Within(t: Time, w: RollWindow, eps: Duration) {
    w.drainingAt - eps <= t && t <= w.graceExpiresAt + eps
  }

  ghost predicate InSomeWindow(t: Time, ws: seq<RollWindow>, eps: Duration) {
    exists w :: w in ws && Within(t, w, eps)
  }

  // t comes before every drain, by more than eps.
  ghost predicate BeforeDrains(t: Time, ws: seq<RollWindow>, eps: Duration) {
    ws != [] && forall w :: w in ws ==> t + eps < w.drainingAt
  }

  // Window i bears a reset at t: no window around t drained later, and no
  // earlier entry as late.
  ghost predicate Bears(t: Time, ws: seq<RollWindow>, eps: Duration, i: int) {
    && 0 <= i < |ws| && Within(t, ws[i], eps)
    && forall j :: 0 <= j < |ws| && Within(t, ws[j], eps) ==>
         ws[j].drainingAt <= ws[i].drainingAt && (ws[j].drainingAt == ws[i].drainingAt ==> i <= j)
  }

  /** The owner of an instant, by the bounds of the windows alone; -1 when no window is around it. */
  lemma OwnerMeans(t: Time, ws: seq<RollWindow>, eps: Duration)
    ensures forall i :: 0 <= i ==> (Owner(t, ws, eps) == i <==> Bears(t, ws, eps, i))
    ensures Owner(t, ws, eps) == -1 <==> !InSomeWindow(t, ws, eps)
    ensures -1 <= Owner(t, ws, eps) < |ws|
  {
    forall i ensures Bears(t, ws, eps, i) <==> IsOwner(i, t, ws, eps) {
      assert forall j :: 0 <= j < |ws| ==> (Within(t, ws[j], eps) <==> InWidened(t, ws[j], eps));
    }
    if InSomeWindow(t, ws, eps) {
      var w :| w in ws && Within(t, w, eps);
      var j :| 0 <= j < |ws| && ws[j] == w;
      OwnerExists(t, ws, eps, j);
    }
  }

  // From s to t both windows run.
  predicate BothRun(a: RollWindow, b: RollWindow, s: Time, t: Time) {
    a.drainingAt <= s && b.drainingAt <= s && t <= a.graceExpiresAt && t <= b.graceExpiresAt
  }

  // Windows of different nodes that run together for longer than eps.
  ghost predicate TogetherTooLong(a: RollWindow, b: RollWindow, eps: Duration) {
    a.node != b.node && exists s, t :: BothRun(a, b, s, t) && t - s > eps
  }

  lemma OverlapMeans(a: RollWindow, b: RollWindow, eps: Duration)
    ensures CrossNodeOverlap(a, b, eps) <==> TogetherTooLong(a, b, eps)
  {
    var s := if a.drainingAt < b.drainingAt then b.drainingAt else a.drainingAt;
    var t := if a.graceExpiresAt < b.graceExpiresAt then a.graceExpiresAt else b.graceExpiresAt;
    assert BothRun(a, b, s, t);
  }

  // -------------------------------------------------------- resets and returns

  // Event e is a reset charged to window i.
  ghost predicate ResetIn(e: ConnEvent, ws: seq<RollWindow>, eps: Duration, i: int) {
    e.kind == ConnReset && Bears(e.ts, ws, eps, i)
  }

  ghost predicate HitIn(events: seq<ConnEvent>, ws: seq<RollWindow>, eps: Duration, i: int, c: string) {
    exists e :: e in events && ResetIn(e, ws, eps, i) && e.connId == c
  }

  // The latest reset of connection c in window i is at t.
  ghost predicate LastReset(events: seq<ConnEvent>, ws: seq<RollWindow>, eps: Duration, i: int, c: string, t: Time) {
    && (exists e :: e in events && ResetIn(e, ws, eps, i) && e.connId == c && e.ts == t)
    && forall e :: e in events && ResetIn(e, ws, eps, i) && e.connId == c ==> e.ts <= t
  }

  predicate Returns(e: ConnEvent, c: string) {
    e.kind == ConnReconnected && e.connId == c
  }

  // The earliest reconnect of connection c is at t.
  ghost predicate FirstReturn(events: seq<ConnEvent>, c: string, t: Time) {
    && (exists e :: e in events && Returns(e, c) && e.ts == t)
    && forall e :: e in events && Returns(e, c) ==> t <= e.ts
  }

  // Connection c, last reset in window i at t, first came back at u, not before t.
  ghost predicate CameBack(events: seq<ConnEvent>, ws: seq<RollWindow>, eps: Duration, i: int, c: string, t: Time, u: Time) {
    LastReset(events, ws, eps, i, c, t) && FirstReturn(events, c, u) && t <= u
  }

  ghost predicate Waits(events: seq<ConnEvent>, ws: seq<RollWindow>, eps: Duration, i: int, c: string, x: Duration) {
    exists t, u :: CameBack(events, ws, eps, i, c, t, u) && x == u - t
  }

  // Connection c was reset in window i and did not come back.
  ghost predicate NeverBack(events: seq<ConnEvent>, ws: seq<RollWindow>, eps: Duration, i: int, c: string) {
    HitIn(events, ws, eps, i, c) && forall x :: !Waits(events, ws, eps, i, c, x)
  }

  lemma ChargeMeans(e: ConnEvent, ws: seq<RollWindow>, eps: Duration, i: int)
    requires 0 <= i
    ensures Attributor(ws, eps)(e) == i <==> ResetIn(e, ws, eps, i)
  {
    OwnerMeans(e.ts, ws, eps);
  }

  lemma ConnsMean(events: seq<ConnEvent>, ws: seq<RollWindow>, eps: Duration, i: int, c: string)
    requires 0 <= i
    ensures c in ResetConns(EventSet(events), Attributor(ws, eps), i) <==> HitIn(events, ws, eps, i, c)
  {
    forall e ensures Attributor(ws, eps)(e) == i <==> ResetIn(e, ws, eps, i) { ChargeMeans(e, ws, eps, i); }
  }

  lemma LastMeans(events: seq<ConnEvent>, ws: seq<RollWindow>, eps: Duration, i: int, c: string, t: Time)
    requires 0 <= i
    ensures var times := ResetTimes(EventSet(events), Attributor(ws, eps), i, c);
      times != {} && Max(times) == t <==> LastReset(events, ws, eps, i, c, t)
  {
    var times := ResetTimes(EventSet(events), Attributor(ws, eps), i, c);
    forall e ensures Attributor(ws, eps)(e) == i <==> ResetIn(e, ws, eps, i) { ChargeMeans(e, ws, eps, i); }
    forall e | e in events && ResetIn(e, ws, eps, i) && e.connId == c ensures e.ts in times {}
    if LastReset(events, ws, eps, i, c, t) {
      assert t in times;
    }
  }

  lemma FirstMeans(events: seq<ConnEvent>, c: string, t: Time)
    ensures var times := ReconnectTimes(EventSet(events), c);
      times != {} && Min(times) == t <==> FirstReturn(events, c, t)
  {
    var times := ReconnectTimes(EventSet(events), c);
    forall e | e in events && Returns(e, c) ensures e.ts in times {}
    if FirstReturn(events, c, t) {
      assert t in times;
    }
  }

  /** The gap that is computed for a connection is the wait from its last reset to its first return. */
  lemma GapMeans(events: seq<ConnEvent>, ws: seq<RollWindow>, eps: Duration, i: int, c: string, x: Duration)
    requires 0 <= i
    ensures Gap(EventSet(events), Attributor(ws, eps), i, c) == Some(x) <==> Waits(events, ws, eps, i, c, x)
  {
    var resets, back := ResetTimes(EventSet(events), Attributor(ws, eps), i, c), ReconnectTimes(EventSet(events), c);
    if Gap(EventSet(events), Attributor(ws, eps), i, c) == Some(x) {
      LastMeans(events, ws, eps, i, c, Max(resets));
      FirstMeans(events, c, Min(back));
      assert CameBack(events, ws, eps, i, c, Max(resets), Min(back));
    }
    if Waits(events, ws, eps, i, c, x) {
      var t, u :| CameBack(events, ws, eps, i, c, t, u) && x == u - t;
      LastMeans(events, ws, eps, i, c, t);
      FirstMeans(events, c, u);
    }
  }

  lemma LossMeans(events: seq<ConnEvent>, ws: seq<RollWindow>, eps: Duration, i: int, c: string)
    requires 0 <= i
    ensures c in ResetConns(EventSet(events), Attributor(ws, eps), i) && Gap(EventSet(events), Attributor(ws, eps), i, c).None?
       <==> NeverBack(events, ws, eps, i, c)
  {
    ConnsMean(events, ws, eps, i, c);
    var gap := Gap(EventSet(events), Attributor(ws, eps), i, c);
    forall x ensures gap == Some(x) <==> Waits(events, ws, eps, i, c, x) { GapMeans(events, ws, eps, i, c, x); }
    if gap.Some? {
      assert Waits(events, ws, eps, i, c, gap.value);
    }
  }

  // A connection that waited was reset.
  lemma WaitingWasHit(events: seq<ConnEvent>, ws: seq<RollWindow>, eps: Duration, i: int, c: string, x: Duration)
    requires Waits(events, ws, eps, i, c, x)
    ensures HitIn(events, ws, eps, i, c)
  {
  }

  // ------------------------------------------------------------------- reasons

  // What a configuration contributes: the tolerance, the bound on recovery, and its two flags.
  datatype Terms = Terms(eps: Duration, bound: Duration, prereqMissing: bool, fired: bool)

  ghost predicate AnyDeath(events: seq<ConnEvent>, ws: seq<RollWindow>, eps: Duration) {
    exists e :: e in events && (e.kind == ConnReset || e.kind == ConnEOF) && BeforeDrains(e.ts, ws, eps)
  }

  ghost predicate AnyOverlap(ws: seq<RollWindow>, eps: Duration) {
    exists a, b :: a in ws && b in ws && TogetherTooLong(a, b, eps)
  }

  // A reset that is neither early nor inside any window.
  ghost predicate Stray(e: ConnEvent, ws: seq<RollWindow>, eps: Duration) {
    e.kind == ConnReset && !BeforeDrains(e.ts, ws, eps) && !InSomeWindow(e.ts, ws, eps)
  }

  ghost predicate AnyStray(events: seq<ConnEvent>, ws: seq<RollWindow>, eps: Duration) {
    exists e :: e in events && Stray(e, ws, eps)
  }

  ghost predicate HitTwice(events: seq<ConnEvent>, ws: seq<RollWindow>, eps: Duration, c: string) {
    exists i, j :: 0 <= i < j < |ws| && HitIn(events, ws, eps, i, c) && HitIn(events, ws, eps, j, c)
  }

  ghost predicate AnyLoss(events: seq<ConnEvent>, ws: seq<RollWindow>, eps: Duration) {
    exists i, c :: 0 <= i < |ws| && NeverBack(events, ws, eps, i, c)
  }

  ghost predicate AnyWait(events: seq<ConnEvent>, ws: seq<RollWindow>, eps: Duration, x: Duration) {
    exists i, c :: 0 <= i < |ws| && Waits(events, ws, eps, i, c, x)
  }

  // The run earns reason r.
  ghost predicate Earned(events: seq<ConnEvent>, ws: seq<RollWindow>, k: Terms, r: Reason) {
    match r
    case TriggerPrereqMissing => k.prereqMissing
    case NoRolloutObserved => k.fired && ws == []
    case HalfOpenWindow => exists w :: w in ws && w.readyAt == None
    case DiedBeforeDrain => AnyDeath(events, ws, k.eps)
    case OverlappingNodeWindows => AnyOverlap(ws, k.eps)
    case DropOnNonUpgradingNode => AnyStray(events, ws, k.eps)
    case SameConnTwoWindows => exists c :: HitTwice(events, ws, k.eps, c)
    case PoolNotRecovered => AnyLoss(events, ws, k.eps)
    case RecoveryOverBound =>
      !AnyLoss(events, ws, k.eps) && exists x :: AnyWait(events, ws, k.eps, x) && x > k.bound
    case NewConnFailure => exists e :: e in events && e.kind == NewConnAttemptFail
  }

  lemma InstantFacts(in_: Input)
    ensures var f, ws, eps := FactsOf(in_), in_.windows, in_.config.jitterTolerance;
      && (f.died <==> AnyDeath(in_.events, ws, eps))
      && (f.dropped <==> AnyStray(in_.events, ws, eps))
      && (f.overlapping <==> AnyOverlap(ws, eps))
  {
    var ws, eps := in_.windows, in_.config.jitterTolerance;
    forall e: ConnEvent ensures Died(e, ws, eps) <==> (e.kind == ConnReset || e.kind == ConnEOF) && BeforeDrains(e.ts, ws, eps) {}
    forall e ensures Dropped(e, ws, eps) <==> Stray(e, ws, eps) { OwnerMeans(e.ts, ws, eps); }
    forall a, b ensures CrossNodeOverlap(a, b, eps) <==> TogetherTooLong(a, b, eps) { OverlapMeans(a, b, eps); }
  }

  lemma TwiceMeans(events: seq<ConnEvent>, ws: seq<RollWindow>, eps: Duration, c: string)
    ensures InTwoWindows(EventSet(events), Attributor(ws, eps), |ws|, c) <==> HitTwice(events, ws, eps, c)
  {
    var E, o := EventSet(events), Attributor(ws, eps);
    forall i | 0 <= i < |ws| ensures c in ResetConns(E, o, i) <==> HitIn(events, ws, eps, i, c) {
      ConnsMean(events, ws, eps, i, c);
    }
    if i, j :| 0 <= i < j < |ws| && HitIn(events, ws, eps, i, c) && HitIn(events, ws, eps, j, c) {
      assert c in ResetConns(E, o, i) && c in ResetConns(E, o, j);
    }
  }

  lemma AnyLossMeans(events: seq<ConnEvent>, ws: seq<RollWindow>, eps: Duration)
    ensures AnyUnrecovered(EventSet(events), Attributor(ws, eps), |ws|) <==> AnyLoss(events, ws, eps)
  {
    var E, o := EventSet(events), Attributor(ws, eps);
    if i :| 0 <= i < |ws| && WindowUnrecovered(E, o, i) {
      var c :| c in ResetConns(E, o, i) && Gap(E, o, i, c).None?;
      LossMeans(events, ws, eps, i, c);
    }
    if i, c :| 0 <= i < |ws| && NeverBack(events, ws, eps, i, c) {
      LossMeans(events, ws, eps, i, c);
      assert WindowUnrecovered(E, o, i);
    }
  }

  // The gaps of a window are the waits of its connections.
  lemma WindowGapsMean(events: seq<ConnEvent>, ws: seq<RollWindow>, eps: Duration, i: int, x: Duration)
    requires 0 <= i
    ensures x in WindowGaps(EventSet(events), Attributor(ws, eps), i) <==> exists c :: Waits(events, ws, eps, i, c, x)
  {
    var E, o := EventSet(events), Attributor(ws, eps);
    if x in WindowGaps(E, o, i) {
      var c :| c in ResetConns(E, o, i) && Gap(E, o, i, c) == Some(x);
      GapMeans(events, ws, eps, i, c, x);
    }
    if c :| Waits(events, ws, eps, i, c, x) {
      GapMeans(events, ws, eps, i, c, x);
      WaitingWasHit(events, ws, eps, i, c, x);
      ConnsMean(events, ws, eps, i, c);
    }
  }

  lemma AllGapsMean(events: seq<ConnEvent>, ws: seq<RollWindow>, eps: Duration, x: Duration)
    ensures x in AllGaps(EventSet(events), Attributor(ws, eps), |ws|) <==> AnyWait(events, ws, eps, x)
  {
    AllGapsExact(EventSet(events), Attributor(ws, eps), |ws|, x);
    if i :| 0 <= i < |ws| && x in WindowGaps(EventSet(events), Attributor(ws, eps), i) {
      WindowGapsMean(events, ws, eps, i, x);
    }
    if i, c :| 0 <= i < |ws| && Waits(events, ws, eps, i, c, x) {
      WindowGapsMean(events, ws, eps, i, x);
    }
  }

  lemma OverBoundMeans(events: seq<ConnEvent>, ws: seq<RollWindow>, eps: Duration, bound: Duration)
    ensures OverBound(EventSet(events), Attributor(ws, eps), |ws|, bound)
       <==> exists x :: AnyWait(events, ws, eps, x) && x > bound
  {
    var E, o := EventSet(events), Attributor(ws, eps);
    if i, c :| 0 <= i < |ws| && c in ResetConns(E, o, i) && Gap(E, o, i, c).Some? && Gap(E, o, i, c).value > bound {
      GapMeans(events, ws, eps, i, c, Gap(E, o, i, c).value);
      assert AnyWait(events, ws, eps, Gap(E, o, i, c).value);
    }
    if x :| AnyWait(events, ws, eps, x) && x > bound {
      var i, c :| 0 <= i < |ws| && Waits(events, ws, eps, i, c, x);
      GapMeans(events, ws, eps, i, c, x);
      WaitingWasHit(events, ws, eps, i, c, x);
      ConnsMean(events, ws, eps, i, c);
    }
  }

  /** The reasons an input earns, by the instants of its events and windows and its configuration. */
  lemma EarnedExactly(in_: Input, r: Reason)
    ensures Violates(in_, r) <==>
      Earned(in_.events, in_.windows,
             Terms(in_.config.jitterTolerance, in_.config.recoveryBoundSeconds * 1_000_000_000,
                   in_.config.triggerPrereqError != "", in_.config.triggerFired), r)
  {
    var events, ws, eps := in_.events, in_.windows, in_.config.jitterTolerance;
    InstantFacts(in_);
    match r {
      case SameConnTwoWindows => forall c { TwiceMeans(events, ws, eps, c); }
      case PoolNotRecovered => AnyLossMeans(events, ws, eps);
      case RecoveryOverBound =>
        AnyLossMeans(events, ws, eps);
        OverBoundMeans(events, ws, eps, in_.config.recoveryBoundSeconds * 1_000_000_000);
      case _ =>
    }
  }

  /**
   * The answer of every run, by the reasons its events and windows earn: ERROR by one of the four
   * that distrust the measurement, PASS without any, FAIL otherwise.
   */
  lemma VerdictMeans(in_: Input, k: Terms)
    requires k.eps == in_.config.jitterTolerance && k.bound == in_.config.recoveryBoundSeconds * 1_000_000_000
    requires k.prereqMissing == (in_.config.triggerPrereqError != "") && k.fired == in_.config.triggerFired
    ensures forall r :: Reported(Outcome(in_).anomalies, r) <==> Earned(in_.events, in_.windows, k, r)
    ensures Outcome(in_).verdict == ERROR <==>
      || Earned(in_.events, in_.windows, k, TriggerPrereqMissing) || Earned(in_.events, in_.windows, k, NoRolloutObserved)
      || Earned(in_.events, in_.windows, k, HalfOpenWindow) || Earned(in_.events, in_.windows, k, DiedBeforeDrain)
    ensures Outcome(in_).verdict == PASS <==> forall r :: !Earned(in_.events, in_.windows, k, r)
    ensures forall r :: Outcome(in_).reason == Some(r) <==>
      && Earned(in_.events, in_.windows, k, r)
      && forall r' :: Earned(in_.events, in_.windows, k, r') ==> Rank(r) <= Rank(r')
  {
    forall r ensures Violates(in_, r) <==> Earned(in_.events, in_.windows, k, r) { EarnedExactly(in_, r); }
    VerdictExact(in_);
    VerdictConditions(in_);
    assert TriggerPrereqMissing.IsError() && NoRolloutObserved.IsError() && HalfOpenWindow.IsError() && DiedBeforeDrain.IsError();
  }
}
