/** The load generator's readiness countdown, over every interleaving of its long workers. */
module LoadReadiness {
  import opened Wrappers
  import opened Model
  import opened Collections
  import opened HeldConn

  // ------------------------------------------------------------ worker split

  function Clamp(frac: real): real {
    if frac < 0.0 then 0.0 else if frac > 1.0 then 1.0 else frac
  }

  // math.Round on a non-negative value: halves go up.
  function Round(x: real): int
    requires x >= 0.0
  {
    (x + 0.5).Floor
  }

  function SplitWorkers(n: int, frac: real): (r: (int, int))
    ensures n <= 0 ==> r == (0, 0)
    ensures n > 0 ==>
      && r.0 + r.1 == n && 0 <= r.0 <= n
      && (frac < 0.0 ==> r.0 == 0) && (frac > 1.0 ==> r.0 == n)
      && (0.0 <= frac <= 1.0 ==> -0.5 < r.0 as real - n as real * frac <= 0.5)
  {
    if n <= 0 then (0, 0)
    else
      var exact := n as real * Clamp(frac);
      assert 0.0 <= exact <= n as real by { ScaledWithin(n as real, Clamp(frac)); }
      var rounded := Round(exact);
      var long := if rounded < 0 then 0 else if rounded > n then n else rounded;
      (long, n - long)
  }

  lemma ScaledWithin(n: real, f: real)
    requires n >= 0.0 && 0.0 <= f <= 1.0
    ensures 0.0 <= n * f <= n
  {
  }

  // ---------------------------------------------------------------- the gate

  /** Listens on the first signal only; a listen that fails is not tried again. */
  class ReadinessGate {
    var done: bool
    var listening: bool

    ghost predicate Valid()
      reads this
    {
      listening ==> done
    }

    constructor ()
      ensures Valid() && !done && !listening
    {
      done, listening := false, false;
    }

    method SignalReady(listens: bool)
      requires Valid()
      modifies this
      ensures Valid() && done
      ensures listening == if old(done) then old(listening) else listens
    {
      if !done {
        done := true;
        if !listens {
          return;
        }
        listening := true;
      }
    }
  }

  // --------------------------------------------------------------- countdown

  // Waiting for the ramp delay, running longWorker, or given up before it began.
  datatype Phase = Ramping | Started | Abandoned

  // Where a worker is in onLongConnected: outside, before the decrement, or having taken the
  // counter to zero and about to signal.
  datatype Callback = Idle | Decrementing | Signalling

  // One long worker: its held-connection machine with its firstDone flag, and as history the
  // callbacks it has made and the script it has been through.
  datatype Long = Long(
    phase: Phase, worker: Worker, firstDone: bool, callback: Callback, calls: nat, seen: seq<Obs>)

  datatype State = State(workers: seq<Long>, remaining: int, signals: nat)

  // The environment and the scheduler: any worker may be given any observation at any time.
  datatype Action =
    | RampOver(i: nat) | Abandon(i: nat) | Observe(i: nat, x: Obs) | Decrement(i: nat) | Signal(i: nat)

  function Init(nLong: nat): State {
    State(seq(nLong, _ => Long(Ramping, Fresh, false, Idle, 0, [])), nLong, if nLong == 0 then 1 else 0)
  }

  // A worker outside its callback takes one observation; a first dial that is no reconnect calls back.
  function Witness(l: Long, x: Obs): Long {
    var dialled := l.worker.mode == Dialing && x.what == Dialed;
    var isReconnect := |l.worker.dials| > 0;
    var after := l.(worker := Step(l.worker, x).0, seen := l.seen + [x]);
    if dialled && !isReconnect && !l.firstDone then
      after.(firstDone := true, callback := Decrementing, calls := l.calls + 1)
    else after
  }

  // One atomic step; an action that does not apply leaves the state alone.
  function Next(s: State, a: Action): State {
    if a.i >= |s.workers| then s
    else
      var l := s.workers[a.i];
      match a
      case RampOver(i) =>
        if l.phase == Ramping then s.(workers := s.workers[i := l.(phase := Started)]) else s
      case Abandon(i) =>
        if l.phase == Ramping then s.(workers := s.workers[i := l.(phase := Abandoned)]) else s
      case Observe(i, x) =>
        if l.phase == Started && l.callback == Idle then s.(workers := s.workers[i := Witness(l, x)]) else s
      case Decrement(i) =>
        if l.callback == Decrementing then
          State(s.workers[i := l.(callback := if s.remaining - 1 == 0 then Signalling else Idle)],
                s.remaining - 1, s.signals)
        else s
      case Signal(i) =>
        if l.callback == Signalling then State(s.workers[i := l.(callback := Idle)], s.remaining, s.signals + 1) else s
  }

  function RunAll(nLong: nat, actions: seq<Action>): State {
    if actions == [] then Init(nLong)
    else Next(RunAll(nLong, actions[..|actions| - 1]), actions[|actions| - 1])
  }

  // Past the atomic decrement of its readiness callback.
  function Counted(): Long -> bool {
    (l: Long) => l.firstDone && l.callback != Decrementing
  }

  function AtSignal(): Long -> bool {
    (l: Long) => l.callback == Signalling
  }

  // A worker's run is the machine's over what it has seen, and its callback is on its first dial.
  ghost predicate Sound(l: Long) {
    && l.worker == Play(l.seen).state
    && (l.firstDone <==> |l.worker.dials| > 0)
    && l.calls == Callbacks(l.seen)
    && (l.callback != Idle ==> l.firstDone)
    && (l.phase != Started ==> l.seen == [])
  }

  lemma PlayAppend(obs: seq<Obs>, x: Obs)
    ensures Play(obs + [x]).state == Step(Play(obs).state, x).0
  {
    PlaySnoc(obs + [x]);
    assert (obs + [x])[..|obs|] == obs;
  }

  lemma StepDials(w: Worker, x: Obs)
    ensures |Step(w, x).0.dials| == |w.dials| + if w.mode == Dialing && x.what == Dialed then 1 else 0
  {
  }

  lemma WitnessSound(l: Long, x: Obs)
    requires Sound(l) && l.callback == Idle && l.phase == Started
    ensures Sound(Witness(l, x))
  {
    PlayAppend(l.seen, x);
    StepDials(l.worker, x);
  }

  lemma {:induction false} CountUpdate<T>(s: seq<T>, i: nat, x: T, p: T -> bool)
    requires i < |s|
    ensures Count(s[i := x], p) == Count(s, p) - (if p(s[i]) then 1 else 0) + (if p(x) then 1 else 0)
  {
    assert s == s[..i] + [s[i]] + s[i + 1..];
    assert s[i := x] == s[..i] + [x] + s[i + 1..];
    CountConcat(s[..i] + [s[i]], s[i + 1..], p);
    CountConcat(s[..i] + [x], s[i + 1..], p);
    CountConcat(s[..i], [s[i]], p);
    CountConcat(s[..i], [x], p);
    assert Count([s[i]], p) == Count([s[i]][..0], p) + if p(s[i]) then 1 else 0;
    assert Count([x], p) == Count([x][..0], p) + if p(x) then 1 else 0;
  }

  lemma {:induction false} CountAtMost<T>(s: seq<T>, p: T -> bool)
    ensures Count(s, p) <= |s|
    ensures Count(s, p) == |s| <==> forall x :: x in s ==> p(x)
  {
    if s != [] {
      CountAtMost(s[..|s| - 1], p);
      assert s == s[..|s| - 1] + [s[|s| - 1]];
    }
  }

  ghost predicate Invariant(nLong: nat, s: State) {
    && |s.workers| == nLong
    && (forall l :: l in s.workers ==> Sound(l))
    && s.remaining == nLong - Count(s.workers, Counted())
    && s.signals + Count(s.workers, AtSignal()) == (if s.remaining == 0 then 1 else 0)
  }

  // A step changes no worker but its own, and that one stays sound.
  lemma OwnStep(s: State, a: Action)
    requires a.i < |s.workers| && Sound(s.workers[a.i])
    ensures |Next(s, a).workers| == |s.workers| && Sound(Next(s, a).workers[a.i])
    ensures Next(s, a).workers == s.workers[a.i := Next(s, a).workers[a.i]]
  {
    var l := s.workers[a.i];
    if a.Observe? && l.callback == Idle && l.phase == Started {
      WitnessSound(l, a.x);
    }
  }

  lemma StepKeepsSound(s: State, a: Action)
    requires forall l :: l in s.workers ==> Sound(l)
    ensures forall l :: l in Next(s, a).workers ==> Sound(l)
  {
    if a.i < |s.workers| {
      assert s.workers[a.i] in s.workers;
      OwnStep(s, a);
      UpdateKeeps(s.workers, a.i, Next(s, a).workers[a.i]);
    }
  }

  lemma UpdateKeeps(ls: seq<Long>, i: nat, l': Long)
    requires i < |ls| && Sound(l') && forall l :: l in ls ==> Sound(l)
    ensures forall l :: l in ls[i := l'] ==> Sound(l)
  {
  }

  function One(b: bool): int {
    if b then 1 else 0
  }

  // A step moves the counter and the signals by what it does to its worker.
  lemma StepCounts(s: State, a: Action)
    requires a.i < |s.workers| && Sound(s.workers[a.i])
    ensures var l, s' := s.workers[a.i], Next(s, a);
      && |s'.workers| == |s.workers|
      && s'.remaining == s.remaining + One(Counted()(l)) - One(Counted()(s'.workers[a.i]))
      && s.remaining - 1 <= s'.remaining <= s.remaining
      && s'.signals + One(AtSignal()(s'.workers[a.i]))
         == s.signals + One(AtSignal()(l)) + One(s'.remaining != s.remaining && s'.remaining == 0)
  {
  }

  lemma StepKeepsInvariant(nLong: nat, s: State, a: Action)
    requires Invariant(nLong, s)
    ensures Invariant(nLong, Next(s, a))
  {
    StepKeepsSound(s, a);
    if a.i < |s.workers| {
      var l' := Next(s, a).workers[a.i];
      assert s.workers[a.i] in s.workers;
      OwnStep(s, a);
      StepCounts(s, a);
      CountUpdate(s.workers, a.i, l', Counted());
      CountUpdate(s.workers, a.i, l', AtSignal());
      CountAtMost(s.workers, Counted());
    }
  }

  lemma {:induction false} InvariantHolds(nLong: nat, actions: seq<Action>)
    ensures Invariant(nLong, RunAll(nLong, actions))
  {
    if actions == [] {
      CountZero(Init(nLong).workers, Counted());
      CountZero(Init(nLong).workers, AtSignal());
    } else {
      InvariantHolds(nLong, actions[..|actions| - 1]);
      StepKeepsInvariant(nLong, RunAll(nLong, actions[..|actions| - 1]), actions[|actions| - 1]);
    }
  }

  // Whoever is past its decrement has dialled and did not give up.
  lemma CountedMeans(l: Long)
    requires Sound(l) && Counted()(l)
    ensures |l.worker.dials| > 0 && l.phase != Abandoned
  {
    assert Play([]) == Run(Fresh, []);
  }

  // The signal comes after the last decrement.
  lemma SignalledMeans(nLong: nat, s: State)
    requires Invariant(nLong, s)
    ensures s.signals <= 1
    ensures s.signals == 1 ==> forall l :: l in s.workers ==> |l.worker.dials| > 0 && l.phase != Abandoned
    ensures nLong == 0 ==> s.signals == 1
  {
    if s.signals == 1 {
      assert Count(s.workers, Counted()) == |s.workers|;
      CountAtMost(s.workers, Counted());
      forall l | l in s.workers ensures |l.worker.dials| > 0 && l.phase != Abandoned { CountedMeans(l); }
    }
    if nLong == 0 {
      assert s.workers == [];
    }
  }

  lemma AllDialledSignals(nLong: nat, s: State)
    requires Invariant(nLong, s)
    ensures (forall l :: l in s.workers ==> |l.worker.dials| > 0 && l.callback == Idle) ==> s.signals == 1
  {
    if forall l :: l in s.workers ==> |l.worker.dials| > 0 && l.callback == Idle {
      CountAtMost(s.workers, Counted());
      CountZero(s.workers, AtSignal());
    }
  }

  /**
   * In every interleaving of ramps, failed dials, breaks, reconnects, Hold cycles and callbacks:
   * each worker runs as its program does and calls back as often as its program does; the
   * counter is the number of long workers still to be counted; the gate is signalled at most
   * once, never before every worker has connected and never when one gave up in its ramp, at once
   * when there is none, and for certain once every worker has dialled and is out of its callback.
   */
  lemma HonestReadiness(nLong: nat, actions: seq<Action>)
    ensures var s := RunAll(nLong, actions);
      && |s.workers| == nLong
      && (forall l :: l in s.workers ==> l.worker == Play(l.seen).state && l.calls == Callbacks(l.seen))
      && s.remaining == nLong - Count(s.workers, Counted())
      && s.signals <= 1
      && (s.signals == 1 ==> forall l :: l in s.workers ==> |l.worker.dials| > 0)
      && ((forall l :: l in s.workers ==> |l.worker.dials| > 0 && l.callback == Idle) ==> s.signals == 1)
      && ((exists l :: l in s.workers && l.phase == Abandoned) ==> s.signals == 0)
      && (nLong == 0 ==> s.signals == 1)
  {
    InvariantHolds(nLong, actions);
    var s := RunAll(nLong, actions);
    SignalledMeans(nLong, s);
    AllDialledSignals(nLong, s);
  }

  // Worker j once k workers have connected, each by one dial at t, and none has signalled.
  function Connected(nLong: nat, k: nat, t: Time, j: nat): Long {
    if j < k then
      Long(Started, Worker(Holding, [t], []), true, if j + 1 == nLong then Signalling else Idle, 1, [Obs(Dialed, t)])
    else Long(Ramping, Fresh, false, Idle, 0, [])
  }

  function AfterConnecting(nLong: nat, k: nat, t: Time): State
    requires k <= nLong
  {
    State(seq(nLong, j requires 0 <= j < nLong => Connected(nLong, k, t, j)), nLong - k, if nLong == 0 then 1 else 0)
  }

  lemma RunMore(nLong: nat, actions: seq<Action>, a: Action)
    ensures RunAll(nLong, actions + [a]) == Next(RunAll(nLong, actions), a)
  {
    assert (actions + [a])[..|actions|] == actions;
  }

  // One worker's ramp, dial and callback.
  lemma ConnectOne(nLong: nat, k: nat, t: Time)
    requires k < nLong
    ensures Next(Next(Next(AfterConnecting(nLong, k, t), RampOver(k)), Observe(k, Obs(Dialed, t))), Decrement(k))
         == AfterConnecting(nLong, k + 1, t)
  {
    var s := AfterConnecting(nLong, k, t);
    var ramped := s.workers[k].(phase := Started);
    var s1 := Next(s, RampOver(k));
    assert s1.workers[k] == ramped;
    var s2 := Next(s1, Observe(k, Obs(Dialed, t)));
    assert s2.workers[k] == Long(Started, Worker(Holding, [t], []), true, Decrementing, 1, [Obs(Dialed, t)]);
    var s3 := Next(s2, Decrement(k));
    assert s3.workers == AfterConnecting(nLong, k + 1, t).workers;
  }

  lemma {:induction false} Connecting(nLong: nat, k: nat, t: Time) returns (actions: seq<Action>)
    requires k <= nLong
    ensures RunAll(nLong, actions) == AfterConnecting(nLong, k, t)
  {
    if k == 0 {
      actions := [];
      assert Init(nLong).workers == AfterConnecting(nLong, 0, t).workers;
    } else {
      var before := Connecting(nLong, k - 1, t);
      var a, b, c := RampOver(k - 1), Observe(k - 1, Obs(Dialed, t)), Decrement(k - 1);
      RunMore(nLong, before, a);
      RunMore(nLong, before + [a], b);
      RunMore(nLong, before + [a] + [b], c);
      ConnectOne(nLong, k - 1, t);
      actions := before + [a] + [b] + [c];
    }
  }

  /** The gate does open: for any number of workers some schedule connects them all and signals once. */
  lemma GateOpens(nLong: nat, t: Time) returns (actions: seq<Action>)
    ensures var s := RunAll(nLong, actions);
      s.signals == 1 && forall l :: l in s.workers ==> l.worker.dials == [t] && l.calls == 1 && l.callback == Idle
  {
    actions := Connecting(nLong, nLong, t);
    if nLong > 0 {
      RunMore(nLong, actions, Signal(nLong - 1));
      actions := actions + [Signal(nLong - 1)];
    }
  }
}
