/**
 * The held-connection protocol shared by the per-node probe and the load generator. The network,
 * the ticker and the contexts are a script of observations; a worker is a machine over it.
 */
module HeldConn {
  import opened Wrappers
  import opened Model
  import opened Identifiers

  // ------------------------------------------------------------ classification

  datatype SockError = ConnectionReset | EndOfFile | OtherError

  datatype CloseReason = CloseReset | CloseEOF | CloseCtx | CloseOther

  // ECONNRESET is a reset; any other error is a graceful end, never a false reset.
  function ClassifyReason(err: Option<SockError>): (r: CloseReason)
    ensures r == CloseReset <==> err == Some(ConnectionReset)
    ensures r == CloseEOF <==> err.Some? && err.value != ConnectionReset
  {
    match err
    case None => CloseOther
    case Some(ConnectionReset) => CloseReset
    case Some(EndOfFile) => CloseEOF
    case Some(OtherError) => CloseEOF
  }

  function Classify(err: Option<SockError>): (k: EventKind)
    ensures k == if err == Some(ConnectionReset) then ConnReset else ConnEOF
  {
    if ClassifyReason(err) == CloseReset then ConnReset else ConnEOF
  }

  // ------------------------------------------------------------------ machine

  // What the environment does to a worker. SessionOver is the load generator's Hold expiry;
  // the probe never sees it. A write error and a non-timeout read error are both Broke.
  datatype Happening =
    | DialFailed | Dialed
    | RoundTrip | ReadTimeout | Broke(err: SockError)
    | SessionOver | Cancelled

  datatype Obs = Obs(what: Happening, ts: Time)

  datatype Mode = Dialing | Holding | Stopped

  // An event of the worker's gen-th connection.
  datatype Emit = Emit(kind: EventKind, gen: nat, ts: Time)

  // dials[g - 1] is when connection g was established and closes[g - 1] how it ended: history
  // that the code does not keep, beyond the number of dials.
  datatype Worker = Worker(mode: Mode, dials: seq<Time>, closes: seq<CloseReason>)

  const Fresh := Worker(Dialing, [], [])

  function Step(s: Worker, x: Obs): (r: (Worker, seq<Emit>)) {
    var g := |s.dials|;
    match (s.mode, x.what)
    case (Dialing, Dialed) =>
      (Worker(Holding, s.dials + [x.ts], s.closes),
       if g > 0 then [Emit(ConnReconnected, g, x.ts)] else [])
    case (Dialing, Cancelled) => (s.(mode := Stopped), [])
    case (Holding, RoundTrip) => (s, [Emit(ConnKeepaliveOK, g, x.ts)])
    case (Holding, Broke(err)) =>
      (Worker(Dialing, s.dials, s.closes + [ClassifyReason(Some(err))]), [Emit(Classify(Some(err)), g, x.ts)])
    case (Holding, SessionOver) => (Worker(Dialing, s.dials, s.closes + [CloseCtx]), [])
    case (Holding, Cancelled) => (Worker(Stopped, s.dials, s.closes + [CloseCtx]), [])
    case _ => (s, [])
  }

  datatype Run = Run(state: Worker, emits: seq<Emit>)

  function Play(obs: seq<Obs>): Run {
    if obs == [] then Run(Fresh, [])
    else
      var before := Play(obs[..|obs| - 1]);
      var (s, out) := Step(before.state, obs[|obs| - 1]);
      Run(s, before.emits + out)
  }

  function ToEvent(name: string, node: string, m: Emit): ConnEvent {
    ConnEvent(m.kind, HeldId(name, m.gen), node, m.ts)
  }

  function ToEvents(name: string, node: string, ms: seq<Emit>): seq<ConnEvent> {
    seq(|ms|, k requires 0 <= k < |ms| => ToEvent(name, node, ms[k]))
  }

  // Event k is that of emission k, under the worker's id and the pod's node.
  ghost predicate Reports(out: seq<ConnEvent>, name: string, node: string, ms: seq<Emit>) {
    && |out| == |ms|
    && forall k :: 0 <= k < |ms| ==>
         && out[k].kind == ms[k].kind && out[k].ts == ms[k].ts && out[k].node == node
         && out[k].connId == name + "-held-" + Dec(ms[k].gen)
  }

  /** A worker's log: each emission with its kind and instant, under `<name>-held-<n>` and the pod's node. */
  lemma LogReports(name: string, node: string, ms: seq<Emit>)
    ensures Reports(ToEvents(name, node, ms), name, node, ms)
  {
    forall k | 0 <= k < |ms| ensures HeldId(name, ms[k].gen) == name + "-held-" + Dec(ms[k].gen) {}
  }

  // ---------------------------------------------------------------- invariant

  // Where an event belongs in the life of the sequence: connection g trickles at 3g, breaks at
  // 3g + 1, and its successor reports it recovered at 3g + 2.
  function Level(m: Emit): nat {
    match m.kind
    case ConnReset => 3 * m.gen + 1
    case ConnEOF => 3 * m.gen + 1
    case ConnReconnected => 3 * m.gen + 2
    case _ => 3 * m.gen
  }

  predicate IsHeldKind(k: EventKind) {
    k == ConnKeepaliveOK || k == ConnReset || k == ConnEOF || k == ConnReconnected
  }

  ghost predicate LevelOrdered(ms: seq<Emit>) {
    forall j, k :: 0 <= j < k < |ms| ==>
      Level(ms[j]) < Level(ms[k]) || (Level(ms[j]) == Level(ms[k]) && ms[j].kind == ConnKeepaliveOK)
  }

  ghost predicate Bounded(r: Run) {
    var g := |r.state.dials|;
    && |r.state.closes| == (if r.state.mode == Holding then g - 1 else g)
    && forall m :: m in r.emits ==>
         && IsHeldKind(m.kind) && 1 <= m.gen <= g
         && Level(m) <= (if r.state.mode == Holding then 3 * g else 3 * g + 1)
  }

  // Each reconnect is dated by the dial that made it, and every dial after the first reports one.
  ghost predicate ReconnectsAreDials(r: Run) {
    && (forall m :: m in r.emits && m.kind == ConnReconnected ==>
          1 <= m.gen < |r.state.dials| && m.ts == r.state.dials[m.gen])
    && (forall g :: 1 <= g < |r.state.dials| ==> Emit(ConnReconnected, g, r.state.dials[g]) in r.emits)
  }

  predicate IsBreak(k: EventKind) {
    k == ConnReset || k == ConnEOF
  }

  // A break event tells how its connection ended; a deliberate close has none.
  ghost predicate BreaksAreCloses(r: Run) {
    forall m :: m in r.emits && IsBreak(m.kind) ==>
      1 <= m.gen <= |r.state.closes|
      && r.state.closes[m.gen - 1] == if m.kind == ConnReset then CloseReset else CloseEOF
  }

  ghost predicate HasBreak(ms: seq<Emit>, gen: nat) {
    exists m :: m in ms && m.gen == gen && IsBreak(m.kind)
  }

  // Every connection that did not end deliberately has its break event.
  ghost predicate ClosesAreBreaks(r: Run) {
    forall k :: 0 <= k < |r.state.closes| && r.state.closes[k] != CloseCtx ==> HasBreak(r.emits, k + 1)
  }

  ghost predicate TimeOrdered(obs: seq<Obs>) {
    forall j, k :: 0 <= j < k < |obs| ==> obs[j].ts <= obs[k].ts
  }

  lemma PlaySnoc(obs: seq<Obs>)
    requires obs != []
    ensures var before, x := Play(obs[..|obs| - 1]), obs[|obs| - 1];
      Play(obs) == Run(Step(before.state, x).0, before.emits + Step(before.state, x).1)
  {
  }

  lemma {:induction false} StreamBounded(obs: seq<Obs>)
    ensures Bounded(Play(obs))
  {
    if obs != [] {
      StreamBounded(obs[..|obs| - 1]);
      var before, x := Play(obs[..|obs| - 1]), obs[|obs| - 1];
      var out := Step(before.state, x).1;
      assert forall m :: m in before.emits + out <==> m in before.emits || m in out;
    }
  }

  // A step emits nothing, or one event above everything emitted before it (a keepalive may tie).
  lemma StepRises(r: Run, x: Obs, m: Emit)
    requires Bounded(r) && m in r.emits
    ensures var out := Step(r.state, x).1;
      |out| <= 1 && (out != [] ==> Level(m) < Level(out[0])
                                   || (Level(m) == Level(out[0]) && m.kind == ConnKeepaliveOK))
  {
  }

  lemma {:induction false} StreamOrdered(obs: seq<Obs>)
    ensures LevelOrdered(Play(obs).emits)
  {
    if obs != [] {
      StreamOrdered(obs[..|obs| - 1]);
      StreamBounded(obs[..|obs| - 1]);
      var before, x := Play(obs[..|obs| - 1]), obs[|obs| - 1];
      forall j | 0 <= j < |before.emits|
        ensures var out := Step(before.state, x).1;
          |out| <= 1 && (out != [] ==> Level(before.emits[j]) < Level(out[0])
                                       || (Level(before.emits[j]) == Level(out[0]) && before.emits[j].kind == ConnKeepaliveOK))
      {
        StepRises(before, x, before.emits[j]);
      }
      assert |Step(before.state, x).1| <= 1;
    }
  }

  lemma StepReconnects(before: Run, x: Obs)
    requires ReconnectsAreDials(before)
    ensures ReconnectsAreDials(Run(Step(before.state, x).0, before.emits + Step(before.state, x).1))
  {
    var (s, out) := Step(before.state, x);
    var dials := before.state.dials;
    assert s.dials == dials || s.dials == dials + [x.ts];
    forall m | m in out && m.kind == ConnReconnected ensures 1 <= m.gen < |s.dials| && m.ts == s.dials[m.gen] {}
    forall g | 1 <= g < |s.dials| ensures Emit(ConnReconnected, g, s.dials[g]) in before.emits + out {
      if g < |dials| {
        assert s.dials[g] == dials[g];
      } else {
        assert out == [Emit(ConnReconnected, g, x.ts)];
      }
    }
  }

  lemma {:induction false} StreamReconnects(obs: seq<Obs>)
    ensures ReconnectsAreDials(Play(obs))
  {
    if obs != [] {
      StreamReconnects(obs[..|obs| - 1]);
      StepReconnects(Play(obs[..|obs| - 1]), obs[|obs| - 1]);
      PlaySnoc(obs);
    }
  }

  lemma StepBreaks(before: Run, x: Obs)
    requires BreaksAreCloses(before) && Bounded(before)
    ensures BreaksAreCloses(Run(Step(before.state, x).0, before.emits + Step(before.state, x).1))
  {
    var (s, out) := Step(before.state, x);
    assert forall k :: 0 <= k < |before.state.closes| ==> s.closes[k] == before.state.closes[k];
    forall m | m in before.emits + out && IsBreak(m.kind)
      ensures 1 <= m.gen <= |s.closes| && s.closes[m.gen - 1] == if m.kind == ConnReset then CloseReset else CloseEOF
    {
      assert m in before.emits || m in out;
    }
  }

  lemma {:induction false} StreamBreaks(obs: seq<Obs>)
    ensures BreaksAreCloses(Play(obs))
  {
    if obs != [] {
      StreamBreaks(obs[..|obs| - 1]);
      StreamBounded(obs[..|obs| - 1]);
      StepBreaks(Play(obs[..|obs| - 1]), obs[|obs| - 1]);
      PlaySnoc(obs);
    }
  }

  lemma {:induction false} StreamCloses(obs: seq<Obs>)
    ensures ClosesAreBreaks(Play(obs))
  {
    if obs != [] {
      StreamCloses(obs[..|obs| - 1]);
      StreamBounded(obs[..|obs| - 1]);
      var before, x := Play(obs[..|obs| - 1]), obs[|obs| - 1];
      var (s, out) := Step(before.state, x);
      forall k | 0 <= k < |s.closes| && s.closes[k] != CloseCtx ensures HasBreak(before.emits + out, k + 1) {
        if k < |before.state.closes| {
          assert before.state.closes[k] == s.closes[k];
          var m :| m in before.emits && m.gen == k + 1 && IsBreak(m.kind);
          assert m in before.emits + out;
        } else {
          assert out[0] in before.emits + out;
        }
      }
    }
  }

  /**
   * A connection has a break event exactly when its socket broke: a deliberate close is silent.
   */
  lemma SilentClose(obs: seq<Obs>, k: nat)
    requires k < |Play(obs).state.closes|
    ensures HasBreak(Play(obs).emits, k + 1) <==> Play(obs).state.closes[k] != CloseCtx
  {
    StreamBreaks(obs);
    StreamCloses(obs);
  }

  // ------------------------------------------------- a run, read off its script

  // A cancellation came before step k.
  ghost predicate CancelledBy(obs: seq<Obs>, k: int) {
    exists j :: 0 <= j < k <= |obs| && obs[j].what == Cancelled
  }

  predicate Ends(what: Happening) {
    what.Broke? || what == SessionOver
  }

  // Step j dialled and nothing has ended a connection from there to step k.
  ghost predicate OpenSince(obs: seq<Obs>, j: int, k: int) {
    0 <= j < k <= |obs| && obs[j].what == Dialed && forall l :: j < l < k ==> !Ends(obs[l].what)
  }

  ghost predicate Open(obs: seq<Obs>, k: int) {
    exists j :: OpenSince(obs, j, k)
  }

  // The worker holds a connection when it comes to step k.
  ghost predicate HeldAt(obs: seq<Obs>, k: int) {
    !CancelledBy(obs, k) && Open(obs, k)
  }

  // Step k is a dial of a worker that holds no connection and has not been cancelled.
  ghost predicate DialAt(obs: seq<Obs>, k: int) {
    0 <= k < |obs| && obs[k].what == Dialed && !HeldAt(obs, k) && !CancelledBy(obs, k)
  }

  // What came before step k does not depend on what comes after.
  lemma PrefixHeld(obs: seq<Obs>, n: int, k: int)
    requires 0 <= k <= n <= |obs|
    ensures CancelledBy(obs[..n], k) <==> CancelledBy(obs, k)
    ensures HeldAt(obs[..n], k) <==> HeldAt(obs, k)
    ensures k < n ==> (DialAt(obs[..n], k) <==> DialAt(obs, k))
  {
    forall j ensures OpenSince(obs[..n], j, k) <==> OpenSince(obs, j, k) {}
    assert forall j :: 0 <= j < n ==> obs[..n][j] == obs[j];
  }

  lemma CancelledStep(obs: seq<Obs>)
    requires obs != []
    ensures var n := |obs| - 1;
      CancelledBy(obs, n + 1) <==> CancelledBy(obs, n) || obs[n].what == Cancelled
  {
  }

  lemma OpenStep(obs: seq<Obs>)
    requires obs != []
    ensures var n := |obs| - 1;
      Open(obs, n + 1) <==> obs[n].what == Dialed || (!Ends(obs[n].what) && Open(obs, n))
  {
    var n := |obs| - 1;
    var m := n + 1;
    if obs[n].what == Dialed {
      assert OpenSince(obs, n, m);
    }
    if j :| OpenSince(obs, j, m) {
      assert j < n ==> OpenSince(obs, j, n) && !Ends(obs[n].what);
    }
    if j :| OpenSince(obs, j, n) && !Ends(obs[n].what) {
      assert OpenSince(obs, j, m);
    }
  }

  /** The machine's mode is what the script says: stopped once cancelled, holding since the last open dial. */
  lemma {:induction false} ModesAreScripted(obs: seq<Obs>)
    ensures Play(obs).state.mode == Stopped <==> CancelledBy(obs, |obs|)
    ensures Play(obs).state.mode == Holding <==> HeldAt(obs, |obs|)
  {
    if obs != [] {
      var n := |obs| - 1;
      ModesAreScripted(obs[..n]);
      PrefixHeld(obs, n, n);
      PlaySnoc(obs);
      CancelledStep(obs);
      OpenStep(obs);
    }
  }

  // The dials before step n.
  ghost function DialSteps(obs: seq<Obs>, n: int): set<int> {
    set k | 0 <= k < n && DialAt(obs, k)
  }

  lemma DialStepsGrow(obs: seq<Obs>)
    requires obs != []
    ensures var n := |obs| - 1;
      |DialSteps(obs, |obs|)| == |DialSteps(obs[..n], n)| + if DialAt(obs, n) then 1 else 0
  {
    var n := |obs| - 1;
    SameDialSteps(obs, n, n);
    assert DialSteps(obs, n + 1) == DialSteps(obs, n) + if DialAt(obs, n) then {n} else {};
  }

  // Whether the last step of a script is a dial, by the machine's mode before it.
  lemma LastIsDial(obs: seq<Obs>)
    requires obs != []
    ensures var n := |obs| - 1;
      DialAt(obs, n) <==> Play(obs[..n]).state.mode == Dialing && obs[n].what == Dialed
  {
    var n := |obs| - 1;
    ModesAreScripted(obs[..n]);
    PrefixHeld(obs, n, n);
  }

  lemma StepAddsDial(w: Worker, x: Obs)
    ensures Step(w, x).0.dials == w.dials + if w.mode == Dialing && x.what == Dialed then [x.ts] else []
  {
    assert w.dials + [] == w.dials;
  }

  // What the last step of a script adds to the dials.
  lemma DialsGrow(obs: seq<Obs>)
    requires obs != []
    ensures var n := |obs| - 1;
      Play(obs).state.dials == Play(obs[..n]).state.dials + if DialAt(obs, n) then [obs[n].ts] else []
  {
    LastIsDial(obs);
    StepAddsDial(Play(obs[..|obs| - 1]).state, obs[|obs| - 1]);
  }

  lemma {:induction false} DialsCounted(obs: seq<Obs>)
    ensures |Play(obs).state.dials| == |DialSteps(obs, |obs|)|
  {
    if obs == [] {
      assert DialSteps(obs, 0) == {};
    } else {
      DialsCounted(obs[..|obs| - 1]);
      DialStepsGrow(obs);
      DialsGrow(obs);
    }
  }

  /**
   * The dials of a run are the dials of its script: the one at step k is numbered after those
   * before it and dated by its step, and there are no others.
   */
  lemma {:induction false} DialsAreScripted(obs: seq<Obs>, k: nat)
    requires DialAt(obs, k)
    ensures var g := |DialSteps(obs, k)|;
      g < |Play(obs).state.dials| == |DialSteps(obs, |obs|)| && Play(obs).state.dials[g] == obs[k].ts
  {
    var n := |obs| - 1;
    DialsCounted(obs);
    DialsGrow(obs);
    SameDialSteps(obs, n, k);
    if k < n {
      PrefixHeld(obs, n, k);
      DialsAreScripted(obs[..n], k);
    } else {
      DialsCounted(obs[..n]);
    }
  }

  lemma SameDialSteps(obs: seq<Obs>, n: int, k: int)
    requires 0 <= k <= n <= |obs|
    ensures DialSteps(obs[..n], k) == DialSteps(obs, k)
  {
    forall j | 0 <= j < k ensures DialAt(obs[..n], j) <==> DialAt(obs, j) { PrefixHeld(obs, n, j); }
  }

  // The dial at step k is the one after connection g.
  ghost predicate DialAfter(obs: seq<Obs>, g: nat, k: int) {
    DialAt(obs, k) && |DialSteps(obs, k)| == g
  }

  lemma {:induction false} DialOfNumber(obs: seq<Obs>, n: nat, g: nat)
    requires g < |DialSteps(obs, n)|
    ensures exists k :: DialAfter(obs, g, k)
  {
    if n > 0 {
      var m := n - 1;
      assert DialSteps(obs, n) == DialSteps(obs, m) + if DialAt(obs, m) then {m} else {};
      if g < |DialSteps(obs, m)| {
        DialOfNumber(obs, m, g);
      } else {
        assert DialAfter(obs, g, m);
      }
    }
  }

  // At step k of the script the worker's connection broke, with error err, and m tells of it.
  ghost predicate BrokeAt(obs: seq<Obs>, k: int, err: SockError, m: Emit) {
    && 0 <= k < |obs| && HeldAt(obs, k) && obs[k].what == Broke(err)
    && m == Emit(if err == ConnectionReset then ConnReset else ConnEOF, |DialSteps(obs, k)|, obs[k].ts)
  }

  ghost predicate BrokeBy(obs: seq<Obs>, k: int, m: Emit) {
    exists err :: BrokeAt(obs, k, err, m)
  }

  ghost predicate Broken(obs: seq<Obs>, m: Emit) {
    exists k :: BrokeBy(obs, k, m)
  }

  // The connection broke with a reset, the one error that counts as harm.
  ghost predicate WasReset(obs: seq<Obs>, m: Emit) {
    exists k :: BrokeAt(obs, k, ConnectionReset, m)
  }

  // At step k a held connection made a round trip.
  ghost predicate RoundTripAt(obs: seq<Obs>, k: int, m: Emit) {
    && 0 <= k < |obs| && HeldAt(obs, k) && obs[k].what == RoundTrip
    && m == Emit(ConnKeepaliveOK, |DialSteps(obs, k)|, obs[k].ts)
  }

  lemma PrefixSteps(obs: seq<Obs>, n: int, k: int, m: Emit)
    requires 0 <= k < n <= |obs|
    ensures BrokeBy(obs[..n], k, m) <==> BrokeBy(obs, k, m)
    ensures RoundTripAt(obs[..n], k, m) <==> RoundTripAt(obs, k, m)
  {
    PrefixHeld(obs, n, k);
    SameDialSteps(obs, n, k);
    forall err ensures BrokeAt(obs[..n], k, err, m) <==> BrokeAt(obs, k, err, m) {}
  }

  lemma BrokenStep(obs: seq<Obs>, m: Emit)
    requires obs != []
    ensures Broken(obs, m) <==> Broken(obs[..|obs| - 1], m) || BrokeBy(obs, |obs| - 1, m)
  {
    var n := |obs| - 1;
    forall k | 0 <= k < n ensures BrokeBy(obs, k, m) <==> BrokeBy(obs[..n], k, m) {
      PrefixSteps(obs, n, k, m);
    }
  }

  // What one step says, by the mode, the observation and the number of dials.
  lemma StepSays(w: Worker, x: Obs, m: Emit)
    ensures m in Step(w, x).1 && IsBreak(m.kind) <==>
      && w.mode == Holding && x.what.Broke?
      && m == Emit(if x.what.err == ConnectionReset then ConnReset else ConnEOF, |w.dials|, x.ts)
    ensures m in Step(w, x).1 && m.kind == ConnKeepaliveOK <==>
      w.mode == Holding && x.what == RoundTrip && m == Emit(ConnKeepaliveOK, |w.dials|, x.ts)
  {
  }

  // What the last step of a script adds to a run.
  lemma LastStep(obs: seq<Obs>, m: Emit)
    requires obs != []
    ensures var n := |obs| - 1;
      var before := Play(obs[..n]);
      var out := Step(before.state, obs[n]).1;
      && (m in Play(obs).emits <==> m in before.emits || m in out)
      && (m in out && IsBreak(m.kind) <==> BrokeBy(obs, n, m))
      && (m in out && m.kind == ConnKeepaliveOK <==> RoundTripAt(obs, n, m))
  {
    var n := |obs| - 1;
    PlaySnoc(obs);
    ModesAreScripted(obs[..n]);
    PrefixHeld(obs, n, n);
    DialsCounted(obs[..n]);
    SameDialSteps(obs, n, n);
    StepSays(Play(obs[..n]).state, obs[n], m);
    if obs[n].what.Broke? {
      assert BrokeBy(obs, n, m) <==> BrokeAt(obs, n, obs[n].what.err, m);
    }
  }

  /** The break events of a run are the breaks of its script: every one, of its own kind, and nothing else. */
  lemma {:induction false} BreaksAreScripted(obs: seq<Obs>, m: Emit)
    ensures m in Play(obs).emits && IsBreak(m.kind) <==> Broken(obs, m)
    ensures m in Play(obs).emits && m.kind == ConnReset <==> WasReset(obs, m)
  {
    if obs != [] {
      BreaksAreScripted(obs[..|obs| - 1], m);
      BrokenStep(obs, m);
      LastStep(obs, m);
    }
    ResetMeans(obs, m);
  }

  lemma ResetMeans(obs: seq<Obs>, m: Emit)
    ensures Broken(obs, m) && m.kind == ConnReset <==> WasReset(obs, m)
  {
    if Broken(obs, m) && m.kind == ConnReset {
      var k :| BrokeBy(obs, k, m);
      var err :| BrokeAt(obs, k, err, m);
      assert BrokeAt(obs, k, ConnectionReset, m);
    }
    if k :| BrokeAt(obs, k, ConnectionReset, m) {
      assert BrokeBy(obs, k, m);
    }
  }

  /** ... and its keepalives are the round trips of held connections. */
  lemma {:induction false} KeepalivesAreScripted(obs: seq<Obs>, m: Emit)
    ensures m in Play(obs).emits && m.kind == ConnKeepaliveOK <==> exists k :: RoundTripAt(obs, k, m)
  {
    if obs != [] {
      var n := |obs| - 1;
      KeepalivesAreScripted(obs[..n], m);
      LastStep(obs, m);
      forall k | 0 <= k < n ensures RoundTripAt(obs, k, m) <==> RoundTripAt(obs[..n], k, m) {
        PrefixSteps(obs, n, k, m);
      }
    }
  }

  /**
   * What a reconnect of connection g recovers: a broken connection exactly when g was not closed
   * deliberately. A Hold expiry leaves a reconnect for a connection that never broke.
   */
  lemma ReconnectMeaning(obs: seq<Obs>, g: nat)
    requires 1 <= g < |Play(obs).state.dials|
    ensures var r := Play(obs);
      && g <= |r.state.closes|
      && Emit(ConnReconnected, g, r.state.dials[g]) in r.emits
      && (HasBreak(r.emits, g) <==> r.state.closes[g - 1] != CloseCtx)
  {
    StreamBounded(obs);
    StreamReconnects(obs);
    SilentClose(obs, g - 1);
  }

  /** Such a script: a dial, a Hold expiry, a dial. The one event is a reconnect of connection 1. */
  lemma HoldExpiryReconnects(t: Time, u: Time, v: Time)
    ensures var obs := [Obs(Dialed, t), Obs(SessionOver, u), Obs(Dialed, v)];
      Play(obs).emits == [Emit(ConnReconnected, 1, v)] && Play(obs).state.closes == [CloseCtx]
  {
    var one, two := [Obs(Dialed, t)], [Obs(Dialed, t), Obs(SessionOver, u)];
    var three := [Obs(Dialed, t), Obs(SessionOver, u), Obs(Dialed, v)];
    assert one[..0] == [] && two[..1] == one && three[..2] == two;
    assert Play(one) == Run(Worker(Holding, [t], []), []);
    assert Play(two) == Run(Worker(Dialing, [t], [CloseCtx]), []);
  }

  lemma {:induction false} StreamTimes(obs: seq<Obs>)
    requires TimeOrdered(obs)
    ensures forall m :: m in Play(obs).emits ==> obs != [] && m.ts <= obs[|obs| - 1].ts
    ensures forall j, k :: 0 <= j < k < |Play(obs).emits| ==> Play(obs).emits[j].ts <= Play(obs).emits[k].ts
  {
    if obs != [] {
      var prior := obs[..|obs| - 1];
      StreamTimes(prior);
      var before := Play(prior);
      if prior != [] {
        assert prior[|prior| - 1].ts <= obs[|obs| - 1].ts;
      }
      assert forall k :: 0 <= k < |before.emits| ==> before.emits[k] in before.emits;
    }
  }

  /**
   * Every run of a worker: generations only rise, so a reconnect precedes every event of the next
   * connection; within one generation only a keepalive, or a break followed by its reconnect,
   * has anything after it, so a connection breaks and recovers at most once each.
   */
  lemma HeldStream(obs: seq<Obs>, j: nat, k: nat)
    requires j < k < |Play(obs).emits|
    ensures var a, b := Play(obs).emits[j], Play(obs).emits[k];
      && 1 <= a.gen <= b.gen <= |Play(obs).state.dials|
      && (a.gen == b.gen ==>
            || a.kind == ConnKeepaliveOK
            || ((a.kind == ConnReset || a.kind == ConnEOF) && b.kind == ConnReconnected))
  {
    StreamBounded(obs);
    StreamOrdered(obs);
    var ms := Play(obs).emits;
    assert ms[j] in ms && ms[k] in ms;
  }

  // ------------------------------------------------------------- the programs

  /** probeconn.HeldConnSeq: ids and the id the next reconnect recovers. */
  class HeldConnSeq {
    const node: string
    var gen: nat
    var last: string
    var first: bool

    // The sequence has handed out exactly gen ids.
    ghost predicate Valid()
      reads this
    {
      && (first <==> gen == 0)
      && (!first ==> last == HeldId(node, gen))
    }

    constructor (node: string)
      ensures Valid() && this.node == node && gen == 0
    {
      this.node := node;
      gen := 0;
      last := "";
      first := true;
    }

    /** The k-th call returns id k and, from the second on, id k - 1 as the one recovered. */
    method Next() returns (connId: string, reconnectId: string, isReconnect: bool)
      requires Valid()
      modifies this
      ensures Valid() && gen == old(gen) + 1
      ensures connId == HeldId(node, gen) == node + "-held-" + Dec(gen)
      ensures isReconnect <==> old(gen) > 0
      ensures reconnectId == if isReconnect then HeldId(node, old(gen)) else ""
    {
      gen := gen + 1;
      connId := HeldId(node, gen);
      reconnectId, isReconnect := "", false;
      if first {
        first := false;
      } else {
        reconnectId := last;
        isReconnect := true;
      }
      last := connId;
    }
  }

  // The programs below read a script from position pos and append to out. At(...) says that the
  // machine, run over the part read so far, is in the given mode and has emitted out.
  ghost predicate At(obs: seq<Obs>, pos: nat, mode: Mode, gen: nat, name: string, node: string, out: seq<ConnEvent>) {
    && pos <= |obs|
    && Play(obs[..pos]).state.mode == mode
    && |Play(obs[..pos]).state.dials| == gen
    && out == ToEvents(name, node, Play(obs[..pos]).emits)
  }

  lemma Advance(obs: seq<Obs>, pos: nat, name: string, node: string)
    requires pos < |obs|
    ensures var r := Play(obs[..pos]);
      && Play(obs[..pos + 1]) == Run(Step(r.state, obs[pos]).0, r.emits + Step(r.state, obs[pos]).1)
      && ToEvents(name, node, Play(obs[..pos + 1]).emits)
         == ToEvents(name, node, r.emits) + ToEvents(name, node, Step(r.state, obs[pos]).1)
  {
    assert obs[..pos + 1][..pos] == obs[..pos];
    PlaySnoc(obs[..pos + 1]);
  }

  // An observation of a worker without a connection.
  lemma IdleStep(obs: seq<Obs>, pos: nat, gen: nat, name: string, node: string, out: seq<ConnEvent>)
    requires pos < |obs| && At(obs, pos, Dialing, gen, name, node, out) && obs[pos].what != Dialed
    ensures At(obs, pos + 1, if obs[pos].what == Cancelled then Stopped else Dialing, gen, name, node, out)
  {
    Advance(obs, pos, name, node);
  }

  // A successful dial.
  lemma DialStep(obs: seq<Obs>, pos: nat, gen: nat, name: string, node: string, out: seq<ConnEvent>)
    requires pos < |obs| && At(obs, pos, Dialing, gen, name, node, out) && obs[pos].what == Dialed
    ensures At(obs, pos + 1, Holding, gen + 1, name, node,
               if gen > 0 then out + [ConnEvent(ConnReconnected, HeldId(name, gen), node, obs[pos].ts)] else out)
  {
    Advance(obs, pos, name, node);
  }

  function ModeAfter(reason: Option<CloseReason>, cancelled: bool): Mode {
    match reason
    case None => Holding
    case Some(CloseCtx) => if cancelled then Stopped else Dialing
    case Some(_) => Dialing
  }

  // How a hold ends: a reset is a reset, any other error an EOF, and the rest is deliberate.
  predicate EndedBy(what: Happening, reason: CloseReason, cancelled: bool) {
    match reason
    case CloseReset => what == Broke(ConnectionReset) && !cancelled
    case CloseEOF => what.Broke? && what != Broke(ConnectionReset) && !cancelled
    case CloseCtx => what == if cancelled then Cancelled else SessionOver
    case CloseOther => false
  }

  // An observation of a worker with a connection.
  lemma HoldStep(obs: seq<Obs>, pos: nat, gen: nat, name: string, node: string, out: seq<ConnEvent>)
    requires pos < |obs| && At(obs, pos, Holding, gen, name, node, out)
    ensures match obs[pos].what
      case Cancelled => At(obs, pos + 1, Stopped, gen, name, node, out)
      case SessionOver => At(obs, pos + 1, Dialing, gen, name, node, out)
      case Broke(err) =>
        At(obs, pos + 1, Dialing, gen, name, node,
           out + [ConnEvent(Classify(Some(err)), HeldId(name, gen), node, obs[pos].ts)])
      case RoundTrip =>
        At(obs, pos + 1, Holding, gen, name, node, out + [ConnEvent(ConnKeepaliveOK, HeldId(name, gen), node, obs[pos].ts)])
      case _ => At(obs, pos + 1, Holding, gen, name, node, out)
  {
    Advance(obs, pos, name, node);
  }

  /** Keeps a connection open until it breaks, its context ends, or the script does (None). */
  method HoldAndTrickle(obs: seq<Obs>, pos0: nat, name: string, node: string, gen: nat, connId: string, out0: seq<ConnEvent>)
      returns (reason: Option<CloseReason>, cancelled: bool, pos: nat, out: seq<ConnEvent>)
    requires At(obs, pos0, Holding, gen, name, node, out0) && connId == HeldId(name, gen)
    ensures pos0 <= pos && At(obs, pos, ModeAfter(reason, cancelled), gen, name, node, out)
    ensures reason.None? ==> pos == |obs|
    ensures forall k :: pos0 <= k < (if reason.Some? then pos - 1 else pos) ==> !Ends(obs[k].what) && obs[k].what != Cancelled
    ensures reason.Some? ==> pos0 < pos && EndedBy(obs[pos - 1].what, reason.value, cancelled)
  {
    pos, out, cancelled := pos0, out0, false;
    while pos < |obs|
      invariant pos0 <= pos && At(obs, pos, Holding, gen, name, node, out)
      invariant forall k :: pos0 <= k < pos ==> !Ends(obs[k].what) && obs[k].what != Cancelled
    {
      var x := obs[pos];
      HoldStep(obs, pos, gen, name, node, out);
      pos := pos + 1;
      match x.what {
        case Cancelled => return Some(CloseCtx), true, pos, out;
        case SessionOver => return Some(CloseCtx), false, pos, out;
        case Broke(err) =>
          out := out + [ConnEvent(Classify(Some(err)), connId, node, x.ts)];
          return Some(ClassifyReason(Some(err))), false, pos, out;
        case RoundTrip =>
          out := out + [ConnEvent(ConnKeepaliveOK, connId, node, x.ts)];
        case _ =>
      }
    }
    return None, false, pos, out;
  }

  // The readiness callbacks that a worker makes over a script: one, on its first dial.
  function Callbacks(obs: seq<Obs>): nat {
    if |Play(obs).state.dials| > 0 then 1 else 0
  }

  /** That is: one exactly if the script lets it dial at all. */
  lemma CallbacksMean(obs: seq<Obs>)
    ensures Callbacks(obs) == if exists k :: DialAt(obs, k) then 1 else 0
  {
    DialsCounted(obs);
    if k :| DialAt(obs, k) {
      assert k in DialSteps(obs, |obs|);
    }
    if Callbacks(obs) == 1 {
      assert DialSteps(obs, |obs|) != {};
    }
  }

  // A successful dial: the id, the reconnect or the readiness callback, and the hold.
  method Establish(obs: seq<Obs>, pos0: nat, ids: HeldConnSeq, node: string, out0: seq<ConnEvent>,
                   firstDone0: bool, calls0: nat)
      returns (reason: Option<CloseReason>, cancelled: bool, pos: nat, out: seq<ConnEvent>, firstDone: bool, calls: nat)
    requires ids.Valid() && At(obs, pos0, Dialing, ids.gen, ids.node, node, out0)
    requires pos0 < |obs| && obs[pos0].what == Dialed
    requires (firstDone0 <==> ids.gen > 0) && calls0 == (if firstDone0 then 1 else 0)
    modifies ids
    ensures ids.Valid() && ids.gen > 0 && firstDone && calls == 1
    ensures pos0 < pos && At(obs, pos, ModeAfter(reason, cancelled), ids.gen, ids.node, node, out)
    ensures reason.None? ==> pos == |obs|
  {
    firstDone, calls, out := firstDone0, calls0, out0;
    DialStep(obs, pos0, ids.gen, ids.node, node, out);
    var connId, reconnectId, isReconnect := ids.Next();
    if isReconnect {
      out := out + [ConnEvent(ConnReconnected, reconnectId, node, obs[pos0].ts)];
    } else if !firstDone {
      firstDone := true;
      calls := calls + 1;
    }
    reason, cancelled, pos, out := HoldAndTrickle(obs, pos0 + 1, ids.node, node, ids.gen, connId, out);
  }

  /** One held session of the load generator; firstDone and the readiness call ride along. */
  method HeldSession(obs: seq<Obs>, pos0: nat, ids: HeldConnSeq, node: string, out0: seq<ConnEvent>,
                     firstDone0: bool, calls0: nat)
      returns (stopped: bool, pos: nat, out: seq<ConnEvent>, firstDone: bool, calls: nat)
    requires ids.Valid() && At(obs, pos0, Dialing, ids.gen, ids.node, node, out0)
    requires (firstDone0 <==> ids.gen > 0) && calls0 == (if firstDone0 then 1 else 0)
    modifies ids
    ensures ids.Valid() && pos0 <= pos <= |obs|
    ensures (firstDone <==> ids.gen > 0) && calls == (if firstDone then 1 else 0)
    ensures out == ToEvents(ids.node, node, Play(obs[..pos]).emits)
    ensures |Play(obs[..pos]).state.dials| == ids.gen
    ensures stopped ==> Play(obs[..pos]).state.mode == Stopped
    ensures !stopped && pos < |obs| ==> pos0 < pos && Play(obs[..pos]).state.mode == Dialing
  {
    pos, out, firstDone, calls := pos0, out0, firstDone0, calls0;
    while pos < |obs|
      invariant ids.Valid() && pos0 <= pos && At(obs, pos, Dialing, ids.gen, ids.node, node, out)
      invariant (firstDone <==> ids.gen > 0) && calls == (if firstDone then 1 else 0)
      decreases |obs| - pos
    {
      var x := obs[pos];
      if x.what == Dialed {
        var reason, cancelled;
        reason, cancelled, pos, out, firstDone, calls := Establish(obs, pos, ids, node, out, firstDone, calls);
        if reason.None? {
          return false, pos, out, firstDone, calls;
        }
        if reason == Some(CloseCtx) {
          return cancelled, pos, out, firstDone, calls;
        }
        continue;
      }
      IdleStep(obs, pos, ids.gen, ids.node, node, out);
      pos := pos + 1;
      if x.what == Cancelled {
        return true, pos, out, firstDone, calls;
      }
      if x.what == SessionOver {
        return false, pos, out, firstDone, calls;
      }
    }
    return false, pos, out, firstDone, calls;
  }

  /**
   * A long-lived load worker over its whole life: one id sequence for all its Hold sessions, and
   * the readiness callback made once, on its first dial.
   */
  method LongWorker(obs: seq<Obs>, name: string, node: string) returns (out: seq<ConnEvent>, calls: nat)
    ensures out == ToEvents(name, node, Play(obs).emits) && Reports(out, name, node, Play(obs).emits)
    ensures calls == Callbacks(obs)
  {
    var ids := new HeldConnSeq(name);
    var pos, firstDone, stopped := 0, false, false;
    out, calls := [], 0;
    assert obs[..0] == [];
    while pos < |obs| && !stopped
      invariant ids.Valid() && ids.node == name && pos <= |obs| && fresh(ids)
      invariant (firstDone <==> ids.gen > 0) && calls == (if firstDone then 1 else 0)
      invariant out == ToEvents(name, node, Play(obs[..pos]).emits)
      invariant |Play(obs[..pos]).state.dials| == ids.gen
      invariant stopped ==> Play(obs[..pos]).state.mode == Stopped
      invariant !stopped && pos < |obs| ==> Play(obs[..pos]).state.mode == Dialing
      decreases |obs| - pos, if stopped then 0 else 1
    {
      stopped, pos, out, firstDone, calls := HeldSession(obs, pos, ids, node, out, firstDone, calls);
    }
    StoppedStays(obs, pos);
    assert obs[..|obs|] == obs;
    LogReports(name, node, Play(obs).emits);
  }

  // A stopped worker never emits or dials again.
  lemma {:induction false} StoppedStays(obs: seq<Obs>, pos: nat)
    requires pos <= |obs| && (pos < |obs| ==> Play(obs[..pos]).state.mode == Stopped)
    ensures Play(obs).emits == Play(obs[..pos]).emits && Play(obs).state.dials == Play(obs[..pos]).state.dials
    ensures pos < |obs| ==> Play(obs).state.mode == Stopped
    decreases |obs|
  {
    if pos == |obs| {
      assert obs[..pos] == obs;
    } else {
      assert obs[..|obs| - 1][..pos] == obs[..pos];
      StoppedStays(obs[..|obs| - 1], pos);
    }
  }

  /** The probe's held loop: the same machine, with no Hold to expire. */
  method HeldConnLoop(obs: seq<Obs>, node: string) returns (out: seq<ConnEvent>, readyCalls: nat)
    requires forall x :: x in obs ==> x.what != SessionOver
    ensures out == ToEvents(node, node, Play(obs).emits) && Reports(out, node, node, Play(obs).emits)
    ensures readyCalls == Callbacks(obs)
  {
    var ids := new HeldConnSeq(node);
    var pos := 0;
    out, readyCalls := [], 0;
    LogReports(node, node, Play(obs).emits);
    assert obs[..0] == [];
    while pos < |obs|
      invariant ids.Valid() && ids.node == node && fresh(ids) && pos <= |obs|
      invariant At(obs, pos, Dialing, ids.gen, node, node, out)
      invariant readyCalls == if ids.gen > 0 then 1 else 0
      decreases |obs| - pos
    {
      var x := obs[pos];
      assert x in obs;
      if x.what != Dialed {
        IdleStep(obs, pos, ids.gen, node, node, out);
        pos := pos + 1;
        if x.what == Cancelled {
          StoppedStays(obs, pos);
          return;
        }
        continue;
      }
      DialStep(obs, pos, ids.gen, node, node, out);
      pos := pos + 1;
      var connId, reconnectId, isReconnect := ids.Next();
      if isReconnect {
        out := out + [ConnEvent(ConnReconnected, reconnectId, node, x.ts)];
      } else {
        readyCalls := readyCalls + 1;
      }
      var reason, cancelled;
      reason, cancelled, pos, out := HoldAndTrickle(obs, pos, node, node, ids.gen, connId, out);
      if reason.None? || (reason == Some(CloseCtx) && cancelled) {
        StoppedStays(obs, pos);
        return;
      }
    }
    assert obs[..|obs|] == obs;
  }
}
