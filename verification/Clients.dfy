/** The per-client observer: its own attribution, and how it agrees with the analyzer's. */
module Clients {
  import opened Wrappers
  import opened Model
  import opened Collections
  import opened VerdictSpec
  import opened WindowTheorems

  predicate AttributeClientReset(resetTS: Time, w: RollWindow, eps: Duration): (r: bool)
    ensures r <==> w.drainingAt - eps <= resetTS <= w.graceExpiresAt + eps
  {
    if resetTS < w.drainingAt - eps then false
    else if resetTS > w.graceExpiresAt + eps then false
    else true
  }

  /** The analyzer finds an owner for an instant exactly when some node's client could claim it. */
  lemma AttributionsAgree(t: Time, ws: seq<RollWindow>, eps: Duration)
    ensures Owner(t, ws, eps) != -1 <==> exists w :: w in ws && AttributeClientReset(t, w, eps)
  {
    OwnerNone(t, ws, eps);
  }

  function WindowForNode(ws: seq<RollWindow>, node: string): (r: Option<RollWindow>)
    ensures r.Some? ==> exists k :: FirstWindow(ws, node, k) && ws[k] == r.value
    ensures r.None? ==> forall w :: w in ws ==> w.node != node
  {
    if ws == [] then None
    else if ws[0].node == node then
      assert FirstWindow(ws, node, 0);
      Some(ws[0])
    else
      var r := WindowForNode(ws[1..], node);
      assert forall k :: FirstWindow(ws[1..], node, k) ==> FirstWindow(ws, node, k + 1);
      r
  }

  ghost predicate FirstWindow(ws: seq<RollWindow>, node: string, k: int) {
    0 <= k < |ws| && ws[k].node == node && forall j :: 0 <= j < k ==> ws[j].node != node
  }

  datatype Hold = HoldUnavailable | HoldHeld | HoldNotHeld

  // Which of the source's notes an observation carries; caveat is the co-location text, if any.
  datatype Note =
    | PodNotFound
    | NodeDidNotRoll(caveat: string)
    | ResetSeen(hold: Hold, caveat: string)
    | NoResetSeen(hold: Hold, caveat: string)

  datatype Observation = Observation(reset: bool, distinctResets: nat, recovery: Option<Duration>, note: Note)

  // Only a connect time makes a reset; the /hold answer words the note.
  function ClientDecision(recovery: Option<Duration>, hold: Hold, caveat: string): Observation {
    if recovery.Some? then Observation(true, 1, recovery, ResetSeen(hold, caveat))
    else Observation(false, 0, None, NoResetSeen(hold, caveat))
  }

  // The newest attributable connect time.
  ghost predicate Newest(times: seq<Time>, w: RollWindow, eps: Duration, t: Time) {
    && t in times && AttributeClientReset(t, w, eps)
    && forall u :: u in times && AttributeClientReset(u, w, eps) ==> u <= t
  }

  /**
   * A client is reported reset exactly when its pod and its node's window are known and some
   * connect time falls in the widened window; its recovery is measured at the newest of them.
   * The /hold answer has a say in the note alone.
   */
  method ObserveClient(podFound: bool, node: string, ws: seq<RollWindow>, connectTimes: seq<Time>, eps: Duration,
                       hold: Hold, caveat: string)
      returns (o: Observation)
    ensures o.note == if !podFound then PodNotFound
                      else if WindowForNode(ws, node).None? then NodeDidNotRoll(caveat)
                      else if o.reset then ResetSeen(hold, caveat)
                      else NoResetSeen(hold, caveat)
    ensures o.reset <==>
      podFound && exists w, t :: WindowForNode(ws, node) == Some(w) && t in connectTimes && AttributeClientReset(t, w, eps)
    ensures o.reset <==> o.recovery.Some?
    ensures o.distinctResets == if o.reset then 1 else 0
    ensures o.reset ==> exists w, t :: WindowForNode(ws, node) == Some(w) && Newest(connectTimes, w, eps, t)
                                       && o.recovery == Some(if t < w.drainingAt then 0 else t - w.drainingAt)
  {
    if !podFound {
      return Observation(false, 0, None, PodNotFound);
    }
    var found := WindowForNode(ws, node);
    if found.None? {
      return Observation(false, 0, None, NodeDidNotRoll(caveat));
    }
    var w := found.value;
    var reconnect: Option<Time> := None;
    for i := 0 to |connectTimes|
      invariant reconnect.None? ==> forall t :: t in connectTimes[..i] ==> !AttributeClientReset(t, w, eps)
      invariant reconnect.Some? ==> Newest(connectTimes[..i], w, eps, reconnect.value)
    {
      var ct := connectTimes[i];
      assert connectTimes[..i + 1] == connectTimes[..i] + [ct];
      if AttributeClientReset(ct, w, eps) {
        if reconnect.None? || ct > reconnect.value {
          reconnect := Some(ct);
        }
      }
    }
    assert connectTimes[..|connectTimes|] == connectTimes;
    var recovery: Option<Duration> := None;
    if reconnect.Some? {
      var gap := reconnect.value - w.drainingAt;
      if gap < 0 {
        gap := 0;
      }
      recovery := Some(gap);
      assert Newest(connectTimes, w, eps, reconnect.value);
    }
    o := ClientDecision(recovery, hold, caveat);
  }

  /** A client's recovery never exceeds its node's window, widened once. */
  lemma RecoveryWithinWindow(ws: seq<RollWindow>, node: string, times: seq<Time>, grace: Duration, eps: Duration,
                             w: RollWindow, t: Time)
    requires WatcherWindows(ws, grace) && grace >= 0 && eps >= 0
    requires WindowForNode(ws, node) == Some(w) && Newest(times, w, eps, t)
    ensures 0 <= (if t < w.drainingAt then 0 else t - w.drainingAt) <= grace + eps
    ensures Owner(t, ws, eps) != -1 && ws[Owner(t, ws, eps)].drainingAt >= w.drainingAt
  {
    OwnerNone(t, ws, eps);
    var j :| FirstWindow(ws, node, j) && ws[j] == w;
    OwnerExists(t, ws, eps, j);
  }
}
