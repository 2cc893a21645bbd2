/**
 * The protocol and the analyzer together: what Analyze says about the streams of any number of
 * workers, however their events interleave, is what happened to their connections.
 */
module EndToEnd {
  import opened Wrappers
  import opened Model
  import opened Collections
  import opened Identifiers
  import opened VerdictSpec
  import opened AttributionOrder
  import opened Diagnosis
  import opened Analyzer
  import opened EventTheorems
  import opened HeldConn
  import opened Meaning
  import Tables

  // ---------------------------------------------------------- short-lived dials

  datatype Dial = Dial(ok: bool, ts: Time)

  function ShortEvent(name: string, node: string, gen: nat, d: Dial): ConnEvent {
    ConnEvent(if d.ok then NewConnAttemptOK else NewConnAttemptFail, NewId(name, gen), node, d.ts)
  }

  function ShortEvents(name: string, node: string, dials: seq<Dial>): seq<ConnEvent> {
    seq(|dials|, k requires 0 <= k < |dials| => ShortEvent(name, node, k + 1, dials[k]))
  }

  /** shortWorker and newConnLoop: one attempt after another, each reported under its own id. */
  method ShortWorker(name: string, node: string, dials: seq<Dial>) returns (out: seq<ConnEvent>)
    ensures out == ShortEvents(name, node, dials)
    ensures |out| == |dials|
    ensures forall k :: 0 <= k < |dials| ==>
              && out[k].kind == (if dials[k].ok then NewConnAttemptOK else NewConnAttemptFail)
              && out[k].connId == name + "-new-" + Dec(k + 1) && out[k].node == node && out[k].ts == dials[k].ts
  {
    var gen := 0;
    out := [];
    while gen < |dials|
      invariant gen <= |dials| && out == ShortEvents(name, node, dials[..gen])
    {
      var d := dials[gen];
      gen := gen + 1;
      var connId := NewId(name, gen);
      if !d.ok {
        out := out + [ConnEvent(NewConnAttemptFail, connId, node, d.ts)];
        continue;
      }
      out := out + [ConnEvent(NewConnAttemptOK, connId, node, d.ts)];
    }
    assert dials[..|dials|] == dials;
  }

  // --------------------------------------------------------------------- fleet

  datatype Actor =
    | Held(name: string, node: string, obs: seq<Obs>)
    | Short(name: string, node: string, dials: seq<Dial>)

  function Stream(a: Actor): seq<ConnEvent> {
    match a
    case Held(name, node, obs) => ToEvents(name, node, Play(obs).emits)
    case Short(name, node, dials) => ShortEvents(name, node, dials)
  }

  function Streams(fleet: seq<Actor>): seq<ConnEvent> {
    if fleet == [] then [] else Streams(fleet[..|fleet| - 1]) + Stream(fleet[|fleet| - 1])
  }

  // Held workers have distinct names and clocks that do not run backwards.
  ghost predicate WellFormed(fleet: seq<Actor>) {
    && (forall i, j :: 0 <= i < j < |fleet| && fleet[i].Held? && fleet[j].Held? ==> fleet[i].name != fleet[j].name)
    && forall a :: a in fleet && a.Held? ==> TimeOrdered(a.obs)
  }

  // Everything is kept.
  function Everything(): ConnEvent -> bool {
    (e: ConnEvent) => true
  }

  // es is some interleaving of what a log kept of the fleet's events.
  ghost predicate Recorded(es: seq<ConnEvent>, fleet: seq<Actor>, keep: ConnEvent -> bool) {
    multiset(es) == multiset(Filter(Streams(fleet), keep))
  }

  // The held workers of a harness run: each holder with its script.
  function HeldFleet(holders: seq<Holder>, scripts: seq<seq<Obs>>): seq<Actor>
    requires |scripts| == |holders|
  {
    seq(|holders|, k requires 0 <= k < |holders| => Held(NameOf(holders[k]), holders[k].node, scripts[k]))
  }

  // No holder twice, every one on a node of the set, and no script's clock runs backwards.
  ghost predicate Staffed(nodes: set<string>, holders: seq<Holder>, scripts: seq<seq<Obs>>) {
    && |scripts| == |holders|
    && (forall i, j :: 0 <= i < j < |holders| ==> holders[i] != holders[j])
    && (forall h :: h in holders ==> h.node in nodes)
    && forall obs :: obs in scripts ==> TimeOrdered(obs)
  }

  lemma ShortSuffix(held: seq<Actor>, shorts: seq<Actor>, k: nat)
    requires |held| <= k < |held + shorts| && forall a :: a in shorts ==> a.Short?
    ensures (held + shorts)[k].Short?
  {
    assert (held + shorts)[k] == shorts[k - |held|];
  }

  /** The probes and load workers of nodes that shadow none of them are a well-formed fleet. */
  lemma HarnessFleet(nodes: set<string>, holders: seq<Holder>, scripts: seq<seq<Obs>>, shorts: seq<Actor>)
    requires !Shadowed(nodes) && Staffed(nodes, holders, scripts) && forall a :: a in shorts ==> a.Short?
    ensures WellFormed(HeldFleet(holders, scripts) + shorts)
  {
    HolderNames(nodes);
    var held := HeldFleet(holders, scripts);
    var fleet := held + shorts;
    forall k | 0 <= k < |fleet| && fleet[k].Held? ensures k < |held| {
      if k >= |held| { ShortSuffix(held, shorts, k); }
    }
    forall i, j | 0 <= i < j < |fleet| && fleet[i].Held? && fleet[j].Held? ensures fleet[i].name != fleet[j].name {
      assert holders[i] in holders && holders[j] in holders;
    }
    forall a | a in fleet && a.Held? ensures TimeOrdered(a.obs) {
      var k :| 0 <= k < |fleet| && fleet[k] == a;
      assert scripts[k] in scripts;
    }
  }

  // With nothing lost, that is any interleaving of the workers' streams.
  lemma WholeRecord(es: seq<ConnEvent>, fleet: seq<Actor>)
    ensures Recorded(es, fleet, Everything()) <==> multiset(es) == multiset(Streams(fleet))
  {
    FilterAll(Streams(fleet), Everything());
  }

  lemma {:induction false} StreamsElements(fleet: seq<Actor>, e: ConnEvent)
    ensures e in Streams(fleet) <==> FromFleet(fleet, e)
  {
    if fleet != [] {
      var n := |fleet| - 1;
      StreamsElements(fleet[..n], e);
      FromFleetStep(fleet, e);
    }
  }

  ghost predicate FromFleet(fleet: seq<Actor>, e: ConnEvent) {
    exists a :: a in fleet && e in Stream(a)
  }

  lemma FromFleetStep(fleet: seq<Actor>, e: ConnEvent)
    requires fleet != []
    ensures FromFleet(fleet, e) <==> FromFleet(fleet[..|fleet| - 1], e) || e in Stream(fleet[|fleet| - 1])
  {
    var n := |fleet| - 1;
    assert forall a :: a in fleet <==> a in fleet[..n] || a == fleet[n] by { assert fleet == fleet[..n] + [fleet[n]]; }
  }

  // An event of a held kind comes from a held worker's connection.
  lemma HeldSource(a: Actor, e: ConnEvent) returns (m: Emit)
    requires e in Stream(a) && IsHeldKind(e.kind)
    ensures a.Held? && m in Play(a.obs).emits && e == ToEvent(a.name, a.node, m)
  {
    var k :| 0 <= k < |Stream(a)| && Stream(a)[k] == e;
    m := Play(a.obs).emits[k];
  }

  // Within a kind, no id occurs twice.
  ghost predicate UniqueIds(es: seq<ConnEvent>, kind: EventKind) {
    forall j, k :: 0 <= j < k < |es| && es[j].kind == kind && es[k].kind == kind ==> es[j].connId != es[k].connId
  }

  lemma StreamUnique(a: Actor, kind: EventKind)
    requires kind == ConnReset || kind == ConnReconnected
    ensures UniqueIds(Stream(a), kind)
  {
    if a.Held? {
      var ms := Play(a.obs).emits;
      forall j, k | 0 <= j < k < |ms| && ms[j].kind == kind && ms[k].kind == kind
        ensures HeldId(a.name, ms[j].gen) != HeldId(a.name, ms[k].gen)
      {
        HeldStream(a.obs, j, k);
        HeldIdInjective(a.name, ms[j].gen, a.name, ms[k].gen);
      }
    }
  }

  // Different workers never share a measured id.
  lemma OneWorkerPerId(a: Actor, b: Actor, e: ConnEvent, f: ConnEvent)
    requires e in Stream(a) && f in Stream(b) && Measured(e) && Measured(f) && e.connId == f.connId
    ensures a.Held? && b.Held? && a.name == b.name
  {
    var m := HeldSource(a, e);
    var l := HeldSource(b, f);
    HeldIdInjective(a.name, m.gen, b.name, l.gen);
  }

  lemma {:induction false} FleetUnique(fleet: seq<Actor>, kind: EventKind)
    requires WellFormed(fleet) && (kind == ConnReset || kind == ConnReconnected)
    ensures UniqueIds(Streams(fleet), kind)
  {
    if fleet != [] {
      var n := |fleet| - 1;
      var rest, a := Streams(fleet[..n]), fleet[n];
      assert forall x :: x in fleet[..n] ==> x in fleet;
      FleetUnique(fleet[..n], kind);
      StreamUnique(a, kind);
      forall e, f | e in rest && f in Stream(a) && e.kind == kind && f.kind == kind ensures e.connId != f.connId {
        StreamsElements(fleet[..n], e);
        var b :| b in fleet[..n] && e in Stream(b);
        var i :| 0 <= i < n && fleet[i] == b;
        if e.connId == f.connId {
          OneWorkerPerId(b, a, e, f);
        }
      }
      UniqueConcat(rest, Stream(a), kind);
    }
  }

  lemma UniqueConcat(a: seq<ConnEvent>, b: seq<ConnEvent>, kind: EventKind)
    requires UniqueIds(a, kind) && UniqueIds(b, kind)
    requires forall e, f :: e in a && f in b && e.kind == kind && f.kind == kind ==> e.connId != f.connId
    ensures UniqueIds(a + b, kind)
  {
    assert forall j :: 0 <= j < |a| ==> a[j] in a;
    assert forall k :: 0 <= k < |b| ==> b[k] in b;
  }

  lemma {:induction false} FilterUnique(es: seq<ConnEvent>, keep: ConnEvent -> bool, kind: EventKind)
    requires UniqueIds(es, kind)
    ensures UniqueIds(Filter(es, keep), kind)
  {
    if es != [] {
      var n := |es| - 1;
      FilterUnique(es[..n], keep, kind);
      FilterElements(es[..n], keep);
      var r := Filter(es[..n], keep);
      forall j | 0 <= j < |r| && r[j].kind == kind == es[n].kind ensures r[j].connId != es[n].connId {
        assert r[j] in es[..n];
      }
    }
  }

  lemma {:induction false} FilterPermutation(a: seq<ConnEvent>, b: seq<ConnEvent>, keep: ConnEvent -> bool)
    requires multiset(a) == multiset(b)
    ensures multiset(Filter(a, keep)) == multiset(Filter(b, keep))
  {
    forall e ensures multiset(Filter(a, keep))[e] == multiset(Filter(b, keep))[e] {
      FilterMultiplicity(a, keep, e);
      FilterMultiplicity(b, keep, e);
    }
  }

  // What is kept of an interleaving is on record.
  lemma FilteredRecord(es: seq<ConnEvent>, fleet: seq<Actor>, keep: ConnEvent -> bool)
    requires Recorded(es, fleet, Everything())
    ensures Recorded(Filter(es, keep), fleet, keep)
  {
    WholeRecord(es, fleet);
    FilterPermutation(es, Streams(fleet), keep);
  }

  lemma InterleavingUnique(es: seq<ConnEvent>, fleet: seq<Actor>, keep: ConnEvent -> bool, kind: EventKind)
    requires WellFormed(fleet) && Recorded(es, fleet, keep) && (kind == ConnReset || kind == ConnReconnected)
    ensures UniqueIds(es, kind)
  {
    FleetUnique(fleet, kind);
    FilterUnique(Streams(fleet), keep, kind);
    var all := Filter(Streams(fleet), keep);
    forall j, k | 0 <= j < k < |es| && es[j].kind == kind && es[k].kind == kind ensures es[j].connId != es[k].connId {
      TwoPlaces(all, es, j, k);
      var p, q :| 0 <= p < |all| && 0 <= q < |all| && p != q && all[p] == es[j] && all[q] == es[k];
      if p < q {
        assert all[p].connId != all[q].connId;
      } else {
        assert all[q].connId != all[p].connId;
      }
    }
  }

  lemma InterleavingElements(es: seq<ConnEvent>, fleet: seq<Actor>, keep: ConnEvent -> bool, e: ConnEvent)
    requires Recorded(es, fleet, keep)
    ensures e in EventSet(es) <==> FromFleet(fleet, e) && keep(e)
  {
    SameElements(es, Filter(Streams(fleet), keep));
    FilterElements(Streams(fleet), keep);
    StreamsElements(fleet, e);
  }

  lemma CausalPair(es: seq<ConnEvent>, fleet: seq<Actor>, keep: ConnEvent -> bool, e: ConnEvent, f: ConnEvent)
    requires WellFormed(fleet) && Recorded(es, fleet, keep) && e in EventSet(es) && f in EventSet(es)
    requires e.kind == ConnReset && f.kind == ConnReconnected && e.connId == f.connId
    ensures e.ts <= f.ts
  {
    var a, m := Origin(es, fleet, keep, e);
    var b, l := Origin(es, fleet, keep, f);
    HeldIdInjective(a.name, m.gen, b.name, l.gen);
    SameActor(fleet, a, b);
    BreakBeforeReconnect(a.obs, m, l);
  }

  lemma BreakBeforeReconnect(obs: seq<Obs>, m: Emit, l: Emit)
    requires TimeOrdered(obs) && m in Play(obs).emits && l in Play(obs).emits
    requires m.kind == ConnReset && l.kind == ConnReconnected && m.gen == l.gen
    ensures m.ts <= l.ts
  {
    var ms := Play(obs).emits;
    var j :| 0 <= j < |ms| && ms[j] == m;
    var k :| 0 <= k < |ms| && ms[k] == l;
    if k < j { HeldStream(obs, k, j); }
    StreamTimes(obs);
  }

  /** No interleaving shows a connection coming back before it was reset. */
  lemma InterleavingCausal(es: seq<ConnEvent>, fleet: seq<Actor>, keep: ConnEvent -> bool)
    requires WellFormed(fleet) && Recorded(es, fleet, keep)
    ensures Causal(EventSet(es))
  {
    var E := EventSet(es);
    forall e, f | e in E && f in E && e.kind == ConnReset && f.kind == ConnReconnected && e.connId == f.connId
      ensures e.ts <= f.ts
    {
      CausalPair(es, fleet, keep, e, f);
    }
  }

  // The log kept the worker's event m.
  predicate Shown(a: Actor, m: Emit, keep: ConnEvent -> bool)
    requires a.Held?
  {
    keep(ToEvent(a.name, a.node, m))
  }

  lemma Origin(es: seq<ConnEvent>, fleet: seq<Actor>, keep: ConnEvent -> bool, e: ConnEvent) returns (a: Actor, m: Emit)
    requires Recorded(es, fleet, keep) && e in EventSet(es) && IsHeldKind(e.kind)
    ensures a in fleet && a.Held? && m in Play(a.obs).emits && e == ToEvent(a.name, a.node, m) && Shown(a, m, keep)
  {
    InterleavingElements(es, fleet, keep, e);
    a :| a in fleet && e in Stream(a);
    m := HeldSource(a, e);
  }

  lemma SameActor(fleet: seq<Actor>, a: Actor, b: Actor)
    requires WellFormed(fleet) && a in fleet && b in fleet && a.Held? && b.Held? && a.name == b.name
    ensures a == b
  {
    var i :| 0 <= i < |fleet| && fleet[i] == a;
    var j :| 0 <= j < |fleet| && fleet[j] == b;
  }

  lemma Present(es: seq<ConnEvent>, fleet: seq<Actor>, keep: ConnEvent -> bool, a: Actor, m: Emit)
    requires Recorded(es, fleet, keep) && a in fleet && a.Held? && m in Play(a.obs).emits && Shown(a, m, keep)
    ensures ToEvent(a.name, a.node, m) in EventSet(es)
  {
    var k :| 0 <= k < |Play(a.obs).emits| && Play(a.obs).emits[k] == m;
    assert Stream(a)[k] == ToEvent(a.name, a.node, m);
    InterleavingElements(es, fleet, keep, ToEvent(a.name, a.node, m));
  }

  // --------------------------------------------------------- exact attribution

  // With unique reset ids a window counts as many connections as resets.
  lemma {:induction false} RawIsDistinct(es: seq<ConnEvent>, o: ConnEvent -> int, n: nat, i: nat)
    requires UniqueIds(es, ConnReset) && ResetsOnly(o, n)
    ensures Count(es, Charged(o, i)) == |ResetConns(EventSet(es), o, i)|
  {
    if es != [] {
      var k := |es| - 1;
      RawIsDistinct(es[..k], o, n, i);
      EventSetSnoc(es, k);
      assert es[..k + 1] == es;
      ResetConnsAdd(EventSet(es[..k]), es[k], o, i);
      if o(es[k]) == i {
        assert es[k].connId !in ResetConns(EventSet(es[..k]), o, i);
      }
    }
  }

  lemma UniqueMeansOne(es: seq<ConnEvent>, kind: EventKind, e: ConnEvent, f: ConnEvent)
    requires UniqueIds(es, kind) && e in es && f in es && e.kind == kind && f.kind == kind && e.connId == f.connId
    ensures e == f
  {
    var j :| 0 <= j < |es| && es[j] == e;
    var k :| 0 <= k < |es| && es[k] == f;
    assert !(j < k) && !(k < j);
  }

  /** Over a protocol stream no connection is reset in two windows and raw counts are exact. */
  lemma AttributionExact(in_: Input, fleet: seq<Actor>, keep: ConnEvent -> bool)
    requires WellFormed(fleet) && Recorded(in_.events, fleet, keep)
    ensures !Violates(in_, SameConnTwoWindows)
    ensures forall p :: p in Outcome(in_).perNodeAttribution ==> p.rawResets == p.distinctConnsReset
  {
    var es, ws, eps := in_.events, in_.windows, in_.config.jitterTolerance;
    var o := Attributor(ws, eps);
    InterleavingUnique(es, fleet, keep, ConnReset);
    AttributorResetsOnly(ws, eps);
    NeverTwice(es, o, |ws|);
    forall i: nat | i < |ws| ensures Attributions(es, o, ws)[i].rawResets == Attributions(es, o, ws)[i].distinctConnsReset {
      RawIsDistinct(es, o, |ws|, i);
    }
    SortKeeps(Attributions(es, o, ws));
  }

  lemma NeverTwice(es: seq<ConnEvent>, o: ConnEvent -> int, n: nat)
    requires UniqueIds(es, ConnReset) && ResetsOnly(o, n)
    ensures forall c :: !InTwoWindows(EventSet(es), o, n, c)
  {
    forall c ensures !InTwoWindows(EventSet(es), o, n, c) {
      forall i: nat, j: nat | c in ResetConns(EventSet(es), o, i) && c in ResetConns(EventSet(es), o, j) ensures i == j {
        OneWindow(es, o, n, c, i, j);
      }
    }
  }

  lemma OneWindow(es: seq<ConnEvent>, o: ConnEvent -> int, n: nat, c: string, i: nat, j: nat)
    requires UniqueIds(es, ConnReset) && ResetsOnly(o, n)
    requires c in ResetConns(EventSet(es), o, i) && c in ResetConns(EventSet(es), o, j)
    ensures i == j
  {
    var e :| e in es && o(e) == i && e.connId == c;
    var f :| f in es && o(f) == j && f.connId == c;
    UniqueMeansOne(es, ConnReset, e, f);
  }

  // ------------------------------------------------------------ exact recovery

  // The log shows that connection m.gen of a was reset at m.ts inside a window.
  ghost predicate ResetInWindow(a: Actor, m: Emit, keep: ConnEvent -> bool, ws: seq<RollWindow>, eps: Duration) {
    a.Held? && WasReset(a.obs, m) && InSomeWindow(m.ts, ws, eps) && Shown(a, m, keep)
  }

  // The next successful dial of the worker after its connection gen.
  ghost function NextDial(a: Actor, gen: nat): Option<Time>
    requires a.Held?
  {
    if exists k :: DialAfter(a.obs, gen, k) then
      var k :| DialAfter(a.obs, gen, k);
      Some(a.obs[k].ts)
    else None
  }

  lemma NextDialIs(a: Actor, gen: nat)
    requires a.Held?
    ensures var dials := Play(a.obs).state.dials;
      NextDial(a, gen) == if gen < |dials| then Some(dials[gen]) else None
  {
    DialsCounted(a.obs);
    if k :| DialAfter(a.obs, gen, k) && NextDial(a, gen) == Some(a.obs[k].ts) {
      DialsAreScripted(a.obs, k);
    }
    if gen < |Play(a.obs).state.dials| {
      DialOfNumber(a.obs, |a.obs|, gen);
    }
  }

  // ... as far as the log shows it; all of it when everything is kept.
  ghost function SeenDial(a: Actor, gen: nat, keep: ConnEvent -> bool): Option<Time>
    requires a.Held?
  {
    var t := NextDial(a, gen);
    if t.Some? && Shown(a, Emit(ConnReconnected, gen, t.value), keep) then t else None
  }

  // Connection m.gen of a was reset in a window and x later its worker is seen to dial again.
  ghost predicate Waited(a: Actor, m: Emit, keep: ConnEvent -> bool, ws: seq<RollWindow>, eps: Duration, x: Duration) {
    && ResetInWindow(a, m, keep, ws, eps)
    && SeenDial(a, m.gen, keep).Some? && x == SeenDial(a, m.gen, keep).value - m.ts
  }

  // A connection was reset inside a window and x later the same worker's next dial succeeded.
  ghost predicate TrueGap(fleet: seq<Actor>, keep: ConnEvent -> bool, ws: seq<RollWindow>, eps: Duration, x: Duration) {
    exists a, m :: a in fleet && Waited(a, m, keep, ws, eps, x)
  }

  // A connection was reset inside a window and its worker has not been seen to dial again.
  ghost predicate NeverRedialled(fleet: seq<Actor>, keep: ConnEvent -> bool, ws: seq<RollWindow>, eps: Duration) {
    exists a, m :: a in fleet && ResetInWindow(a, m, keep, ws, eps) && SeenDial(a, m.gen, keep).None?
  }

  // With nothing lost, such a connection was its worker's last.
  lemma LastConnection(a: Actor, m: Emit)
    requires a.Held? && m in Play(a.obs).emits && m.kind == ConnReset
    ensures SeenDial(a, m.gen, Everything()).None? <==> m.gen == |Play(a.obs).state.dials|
  {
    StreamBounded(a.obs);
    NextDialIs(a, m.gen);
  }

  lemma ResetExact(es: seq<ConnEvent>, o: ConnEvent -> int, n: nat, e: ConnEvent)
    requires UniqueIds(es, ConnReset) && ResetsOnly(o, n) && e in es && o(e) != -1
    ensures e.connId in ResetConns(EventSet(es), o, o(e))
    ensures ResetTimes(EventSet(es), o, o(e), e.connId) == {e.ts}
  {
    forall f | f in es && o(f) == o(e) && f.connId == e.connId ensures f.ts == e.ts {
      UniqueMeansOne(es, ConnReset, e, f);
    }
    assert e.ts in ResetTimes(EventSet(es), o, o(e), e.connId);
  }

  function WaitFrom(t: Time, back: Option<Time>): Option<Duration> {
    if back.Some? then Some(back.value - t) else None
  }

  lemma GapFrom(E: set<ConnEvent>, o: ConnEvent -> int, i: int, c: string, t: Time, back: Option<Time>)
    requires ResetTimes(E, o, i, c) == {t}
    requires ReconnectTimes(E, c) == if back.Some? then {back.value} else {}
    requires back.Some? ==> t <= back.value
    ensures Gap(E, o, i, c) == WaitFrom(t, back)
  {
    assert Max({t}) == t;
    if back.Some? {
      assert Min({back.value}) == back.value;
    }
  }

  lemma DialFollowsReset(a: Actor, m: Emit)
    requires a.Held? && TimeOrdered(a.obs) && m in Play(a.obs).emits && m.kind == ConnReset
    ensures 1 <= m.gen <= |Play(a.obs).state.dials|
    ensures NextDial(a, m.gen).Some? ==> m.ts <= NextDial(a, m.gen).value
  {
    StreamBounded(a.obs);
    StreamReconnects(a.obs);
    NextDialIs(a, m.gen);
    if NextDial(a, m.gen).Some? {
      BreakBeforeReconnect(a.obs, m, Emit(ConnReconnected, m.gen, NextDial(a, m.gen).value));
    }
  }

  lemma ChargedTimes(es: seq<ConnEvent>, fleet: seq<Actor>, keep: ConnEvent -> bool, o: ConnEvent -> int, n: nat, a: Actor, m: Emit)
    requires WellFormed(fleet) && Recorded(es, fleet, keep) && ResetsOnly(o, n) && a in fleet && a.Held?
    requires m in Play(a.obs).emits && m.kind == ConnReset && Shown(a, m, keep) && o(ToEvent(a.name, a.node, m)) != -1
    ensures var e := ToEvent(a.name, a.node, m);
      && e.connId in ResetConns(EventSet(es), o, o(e))
      && ResetTimes(EventSet(es), o, o(e), e.connId) == {m.ts}
  {
    Present(es, fleet, keep, a, m);
    InterleavingUnique(es, fleet, keep, ConnReset);
    ResetExact(es, o, n, ToEvent(a.name, a.node, m));
  }

  lemma ChargedGap(es: seq<ConnEvent>, fleet: seq<Actor>, keep: ConnEvent -> bool, o: ConnEvent -> int, n: nat, a: Actor, m: Emit)
    requires WellFormed(fleet) && Recorded(es, fleet, keep) && ResetsOnly(o, n) && a in fleet && a.Held?
    requires m in Play(a.obs).emits && m.kind == ConnReset && Shown(a, m, keep) && o(ToEvent(a.name, a.node, m)) != -1
    ensures var e := ToEvent(a.name, a.node, m);
      && e.connId in ResetConns(EventSet(es), o, o(e))
      && Gap(EventSet(es), o, o(e), e.connId) == WaitFrom(m.ts, SeenDial(a, m.gen, keep))
    ensures 1 <= m.gen <= |Play(a.obs).state.dials|
  {
    var e := ToEvent(a.name, a.node, m);
    ChargedTimes(es, fleet, keep, o, n, a, m);
    DialFollowsReset(a, m);
    ReconnectExact(es, fleet, keep, a, m.gen);
    GapFrom(EventSet(es), o, o(e), e.connId, m.ts, SeenDial(a, m.gen, keep));
  }

  /** The gap Analyze computes for a reset is the time to that worker's next successful dial. */
  lemma GapExact(es: seq<ConnEvent>, fleet: seq<Actor>, keep: ConnEvent -> bool, ws: seq<RollWindow>, eps: Duration, a: Actor, m: Emit)
    requires WellFormed(fleet) && Recorded(es, fleet, keep) && a in fleet && ResetInWindow(a, m, keep, ws, eps)
    ensures var o, e := Attributor(ws, eps), ToEvent(a.name, a.node, m);
      && 0 <= o(e) < |ws|
      && e.connId in ResetConns(EventSet(es), o, o(e))
      && Gap(EventSet(es), o, o(e), e.connId) == WaitFrom(m.ts, SeenDial(a, m.gen, keep))
    ensures 1 <= m.gen <= |Play(a.obs).state.dials|
  {
    AttributorResetsOnly(ws, eps);
    BreaksAreScripted(a.obs, m);
    OwnerMeans(m.ts, ws, eps);
    ChargedGap(es, fleet, keep, Attributor(ws, eps), |ws|, a, m);
  }

  lemma ReconnectExact(es: seq<ConnEvent>, fleet: seq<Actor>, keep: ConnEvent -> bool, a: Actor, gen: nat)
    requires WellFormed(fleet) && Recorded(es, fleet, keep) && a in fleet && a.Held? && gen >= 1
    ensures var back := SeenDial(a, gen, keep);
      ReconnectTimes(EventSet(es), HeldId(a.name, gen)) == if back.Some? then {back.value} else {}
  {
    var E, c, back := EventSet(es), HeldId(a.name, gen), SeenDial(a, gen, keep);
    StreamReconnects(a.obs);
    NextDialIs(a, gen);
    forall f | f in E && f.kind == ConnReconnected && f.connId == c ensures back == Some(f.ts) {
      var b, l := Origin(es, fleet, keep, f);
      HeldIdInjective(a.name, gen, b.name, l.gen);
      SameActor(fleet, a, b);
    }
    if back.Some? {
      Present(es, fleet, keep, a, Emit(ConnReconnected, gen, back.value));
      assert back.value in ReconnectTimes(E, c);
    }
  }

  // Every attributed connection is some worker's.
  lemma AttributedSource(es: seq<ConnEvent>, fleet: seq<Actor>, keep: ConnEvent -> bool, ws: seq<RollWindow>, eps: Duration, i: nat, c: string)
      returns (a: Actor, m: Emit)
    requires Recorded(es, fleet, keep) && c in ResetConns(EventSet(es), Attributor(ws, eps), i)
    ensures a in fleet && ResetInWindow(a, m, keep, ws, eps)
    ensures c == HeldId(a.name, m.gen) && Attributor(ws, eps)(ToEvent(a.name, a.node, m)) == i
  {
    var e :| e in EventSet(es) && Attributor(ws, eps)(e) == i && e.connId == c;
    OwnedNotEarly(e, ws, eps);
    OwnerMeans(e.ts, ws, eps);
    a, m := Origin(es, fleet, keep, e);
    BreaksAreScripted(a.obs, m);
  }

  lemma GapIsTrue(es: seq<ConnEvent>, fleet: seq<Actor>, keep: ConnEvent -> bool, ws: seq<RollWindow>, eps: Duration, i: nat, x: Duration)
    requires WellFormed(fleet) && Recorded(es, fleet, keep) && x in WindowGaps(EventSet(es), Attributor(ws, eps), i)
    ensures TrueGap(fleet, keep, ws, eps, x)
  {
    var o, E := Attributor(ws, eps), EventSet(es);
    var c :| c in ResetConns(E, o, i) && Gap(E, o, i, c) == Some(x);
    var a, m := AttributedSource(es, fleet, keep, ws, eps, i, c);
    GapExact(es, fleet, keep, ws, eps, a, m);
    assert Waited(a, m, keep, ws, eps, x);
  }

  lemma WaitOf(a: Actor, m: Emit, keep: ConnEvent -> bool, ws: seq<RollWindow>, eps: Duration, x: Duration)
    requires Waited(a, m, keep, ws, eps, x)
    ensures ResetInWindow(a, m, keep, ws, eps) && WaitFrom(m.ts, SeenDial(a, m.gen, keep)) == Some(x)
  {
  }

  lemma WaitListed(E: set<ConnEvent>, o: ConnEvent -> int, n: nat, i: int, c: string, x: Duration)
    requires 0 <= i < n && c in ResetConns(E, o, i) && Gap(E, o, i, c) == Some(x)
    ensures x in AllGaps(E, o, n)
  {
    assert x in WindowGaps(E, o, i);
    AllGapsExact(E, o, n, x);
  }

  lemma WaitIsFound(es: seq<ConnEvent>, fleet: seq<Actor>, keep: ConnEvent -> bool, ws: seq<RollWindow>, eps: Duration,
                    x: Duration, a: Actor, m: Emit)
    requires WellFormed(fleet) && Recorded(es, fleet, keep)
    requires a in fleet && ResetInWindow(a, m, keep, ws, eps) && WaitFrom(m.ts, SeenDial(a, m.gen, keep)) == Some(x)
    ensures x in AllGaps(EventSet(es), Attributor(ws, eps), |ws|)
  {
    GapExact(es, fleet, keep, ws, eps, a, m);
    var e, o := ToEvent(a.name, a.node, m), Attributor(ws, eps);
    WaitListed(EventSet(es), o, |ws|, o(e), e.connId, x);
  }

  lemma GapsAreTrue(es: seq<ConnEvent>, fleet: seq<Actor>, keep: ConnEvent -> bool, ws: seq<RollWindow>, eps: Duration, x: Duration)
    requires WellFormed(fleet) && Recorded(es, fleet, keep)
    ensures x in AllGaps(EventSet(es), Attributor(ws, eps), |ws|) <==> TrueGap(fleet, keep, ws, eps, x)
  {
    AllGapsExact(EventSet(es), Attributor(ws, eps), |ws|, x);
    if i :| 0 <= i < |ws| && x in WindowGaps(EventSet(es), Attributor(ws, eps), i) {
      GapIsTrue(es, fleet, keep, ws, eps, i, x);
    }
    if TrueGap(fleet, keep, ws, eps, x) {
      var a, m :| a in fleet && Waited(a, m, keep, ws, eps, x);
      WaitOf(a, m, keep, ws, eps, x);
      WaitIsFound(es, fleet, keep, ws, eps, x, a, m);
    }
  }

  lemma LossIsTrue(es: seq<ConnEvent>, fleet: seq<Actor>, keep: ConnEvent -> bool, ws: seq<RollWindow>, eps: Duration)
    requires WellFormed(fleet) && Recorded(es, fleet, keep)
    ensures AnyUnrecovered(EventSet(es), Attributor(ws, eps), |ws|) <==> NeverRedialled(fleet, keep, ws, eps)
  {
    var o, E := Attributor(ws, eps), EventSet(es);
    if i :| 0 <= i < |ws| && WindowUnrecovered(E, o, i) {
      var c :| c in ResetConns(E, o, i) && Gap(E, o, i, c).None?;
      var a, m := AttributedSource(es, fleet, keep, ws, eps, i, c);
      GapExact(es, fleet, keep, ws, eps, a, m);
    }
    if NeverRedialled(fleet, keep, ws, eps) {
      var a, m :| a in fleet && ResetInWindow(a, m, keep, ws, eps) && SeenDial(a, m.gen, keep).None?;
      GapExact(es, fleet, keep, ws, eps, a, m);
      var i := o(ToEvent(a.name, a.node, m));
      assert WindowUnrecovered(E, o, i);
    }
  }

  ghost predicate LongestTrueGap(fleet: seq<Actor>, keep: ConnEvent -> bool, ws: seq<RollWindow>, eps: Duration, x: Duration) {
    TrueGap(fleet, keep, ws, eps, x) && forall y :: TrueGap(fleet, keep, ws, eps, y) ==> y <= x
  }

  lemma LongestIsMax(es: seq<ConnEvent>, fleet: seq<Actor>, keep: ConnEvent -> bool, ws: seq<RollWindow>, eps: Duration, x: Duration)
    requires WellFormed(fleet) && Recorded(es, fleet, keep)
    ensures var gaps := AllGaps(EventSet(es), Attributor(ws, eps), |ws|);
      gaps != {} && Max(gaps) == x <==> LongestTrueGap(fleet, keep, ws, eps, x)
  {
    var gaps := AllGaps(EventSet(es), Attributor(ws, eps), |ws|);
    forall y ensures y in gaps <==> TrueGap(fleet, keep, ws, eps, y) {
      GapsAreTrue(es, fleet, keep, ws, eps, y);
    }
  }

  /**
   * Whatever the interleaving and whatever was logged: pool-not-recovered is raised exactly when
   * a connection is shown reset inside a window and its worker is not shown to dial again, and
   * otherwise the recovery time is the longest wait from a reset to the worker's next dial.
   */
  lemma RecoveryExactness(in_: Input, fleet: seq<Actor>, keep: ConnEvent -> bool)
    requires WellFormed(fleet) && Recorded(in_.events, fleet, keep)
    ensures var ws, eps := in_.windows, in_.config.jitterTolerance;
      && (Violates(in_, PoolNotRecovered) <==> NeverRedialled(fleet, keep, ws, eps))
      && forall x :: Outcome(in_).recovery == Some(x) <==>
           !NeverRedialled(fleet, keep, ws, eps) && LongestTrueGap(fleet, keep, ws, eps, x)
  {
    var es, ws, eps := in_.events, in_.windows, in_.config.jitterTolerance;
    LossIsTrue(es, fleet, keep, ws, eps);
    forall x ensures Outcome(in_).recovery == Some(x) <==>
                       !NeverRedialled(fleet, keep, ws, eps) && LongestTrueGap(fleet, keep, ws, eps, x)
    {
      LongestIsMax(es, fleet, keep, ws, eps, x);
    }
  }

  // The failed attempts of a short-lived worker that the log shows.
  function FailedAttempts(name: string, node: string, dials: seq<Dial>, keep: ConnEvent -> bool): nat {
    if dials == [] then 0
    else
      var n := |dials| - 1;
      FailedAttempts(name, node, dials[..n], keep)
      + if !dials[n].ok && keep(ShortEvent(name, node, n + 1, dials[n])) then 1 else 0
  }

  function FailedDials(fleet: seq<Actor>, keep: ConnEvent -> bool): nat {
    if fleet == [] then 0
    else
      var n := |fleet| - 1;
      FailedDials(fleet[..n], keep)
      + match fleet[n]
        case Held(_, _, _) => 0
        case Short(name, node, dials) => FailedAttempts(name, node, dials, keep)
  }

  lemma {:induction false} ShortFailures(name: string, node: string, dials: seq<Dial>, keep: ConnEvent -> bool)
    ensures Count(Filter(ShortEvents(name, node, dials), keep), OfKind(NewConnAttemptFail))
         == FailedAttempts(name, node, dials, keep)
  {
    if dials != [] {
      var n := |dials| - 1;
      ShortFailures(name, node, dials[..n], keep);
      var earlier, e := ShortEvents(name, node, dials[..n]), ShortEvent(name, node, n + 1, dials[n]);
      assert ShortEvents(name, node, dials) == earlier + [e];
      FilterAppend(earlier, e, keep);
      CountAppend(Filter(earlier, keep), e, OfKind(NewConnAttemptFail));
    }
  }

  lemma HeldFailures(a: Actor, keep: ConnEvent -> bool)
    requires a.Held?
    ensures Count(Filter(Stream(a), keep), OfKind(NewConnAttemptFail)) == 0
  {
    StreamBounded(a.obs);
    FilterElements(Stream(a), keep);
    CountZero(Filter(Stream(a), keep), OfKind(NewConnAttemptFail));
  }

  lemma {:induction false} FailuresExact(fleet: seq<Actor>, keep: ConnEvent -> bool)
    ensures Count(Filter(Streams(fleet), keep), OfKind(NewConnAttemptFail)) == FailedDials(fleet, keep)
  {
    if fleet != [] {
      var n := |fleet| - 1;
      FailuresExact(fleet[..n], keep);
      FilterConcat(Streams(fleet[..n]), Stream(fleet[n]), keep);
      CountConcat(Filter(Streams(fleet[..n]), keep), Filter(Stream(fleet[n]), keep), OfKind(NewConnAttemptFail));
      match fleet[n] {
        case Held(_, _, _) => HeldFailures(fleet[n], keep);
        case Short(name, node, dials) => ShortFailures(name, node, dials, keep);
      }
    }
  }

  /** New-connection failures are the failed attempts of the short-lived workers, one for one. */
  lemma NewConnExactness(in_: Input, fleet: seq<Actor>, keep: ConnEvent -> bool)
    requires Recorded(in_.events, fleet, keep)
    ensures Outcome(in_).newConnFailures == FailedDials(fleet, keep)
  {
    CountPermutation(in_.events, Filter(Streams(fleet), keep), OfKind(NewConnAttemptFail));
    FailuresExact(fleet, keep);
  }

  // ------------------------------------------------------------- exact verdict

  // Some worker's connection is shown to break before every drain.
  ghost predicate DiedEarly(fleet: seq<Actor>, keep: ConnEvent -> bool, ws: seq<RollWindow>, eps: Duration) {
    exists a, m :: a in fleet && a.Held? && Broken(a.obs, m) && Shown(a, m, keep) && BeforeDrains(m.ts, ws, eps)
  }

  // Some worker's connection is shown to be reset neither so early nor in any window.
  ghost predicate ResetAstray(fleet: seq<Actor>, keep: ConnEvent -> bool, ws: seq<RollWindow>, eps: Duration) {
    exists a, m :: a in fleet && a.Held? && WasReset(a.obs, m) && Shown(a, m, keep)
                   && !BeforeDrains(m.ts, ws, eps) && !InSomeWindow(m.ts, ws, eps)
  }

  ghost predicate WaitedPast(fleet: seq<Actor>, keep: ConnEvent -> bool, ws: seq<RollWindow>, eps: Duration, bound: Duration) {
    exists x :: TrueGap(fleet, keep, ws, eps, x) && x > bound
  }

  // The facts of a run, told by its workers, its windows and its configuration: the breaks and
  // dials of their scripts, no event stream.
  // With keep everywhere true they are the whole truth about the workers.
  ghost function FleetFacts(fleet: seq<Actor>, keep: ConnEvent -> bool, ws: seq<RollWindow>, k: Terms): Facts {
    Facts(
      k.prereqMissing,
      k.fired && ws == [],
      exists w :: w in ws && w.readyAt == None,
      DiedEarly(fleet, keep, ws, k.eps),
      Meaning.AnyOverlap(ws, k.eps),
      ResetAstray(fleet, keep, ws, k.eps),
      false,
      NeverRedialled(fleet, keep, ws, k.eps),
      WaitedPast(fleet, keep, ws, k.eps, k.bound),
      FailedDials(fleet, keep) > 0)
  }

  lemma DeathsAreTrue(es: seq<ConnEvent>, fleet: seq<Actor>, keep: ConnEvent -> bool, ws: seq<RollWindow>, eps: Duration)
    requires Recorded(es, fleet, keep)
    ensures AnyDeath(es, ws, eps) <==> DiedEarly(fleet, keep, ws, eps)
  {
    if DiedEarly(fleet, keep, ws, eps) {
      var a, m :| a in fleet && a.Held? && Broken(a.obs, m) && Shown(a, m, keep) && BeforeDrains(m.ts, ws, eps);
      BreaksAreScripted(a.obs, m);
      Present(es, fleet, keep, a, m);
    }
    if e :| e in es && (e.kind == ConnReset || e.kind == ConnEOF) && BeforeDrains(e.ts, ws, eps) {
      var a, m := Origin(es, fleet, keep, e);
      BreaksAreScripted(a.obs, m);
    }
  }

  lemma StraysAreTrue(es: seq<ConnEvent>, fleet: seq<Actor>, keep: ConnEvent -> bool, ws: seq<RollWindow>, eps: Duration)
    requires Recorded(es, fleet, keep)
    ensures AnyStray(es, ws, eps) <==> ResetAstray(fleet, keep, ws, eps)
  {
    if ResetAstray(fleet, keep, ws, eps) {
      var a, m :| a in fleet && a.Held? && WasReset(a.obs, m) && Shown(a, m, keep)
                  && !BeforeDrains(m.ts, ws, eps) && !InSomeWindow(m.ts, ws, eps);
      BreaksAreScripted(a.obs, m);
      Present(es, fleet, keep, a, m);
      assert Stray(ToEvent(a.name, a.node, m), ws, eps);
    }
    if e :| e in es && Stray(e, ws, eps) {
      var a, m := Origin(es, fleet, keep, e);
      BreaksAreScripted(a.obs, m);
    }
  }

  lemma LateWaits(es: seq<ConnEvent>, fleet: seq<Actor>, keep: ConnEvent -> bool, ws: seq<RollWindow>, eps: Duration, bound: Duration)
    requires WellFormed(fleet) && Recorded(es, fleet, keep)
    ensures OverBound(EventSet(es), Attributor(ws, eps), |ws|, bound) <==> WaitedPast(fleet, keep, ws, eps, bound)
  {
    var gaps := AllGaps(EventSet(es), Attributor(ws, eps), |ws|);
    OverBoundIs(EventSet(es), Attributor(ws, eps), |ws|, bound);
    if x :| x in gaps && x > bound {
      GapsAreTrue(es, fleet, keep, ws, eps, x);
    }
    if x :| TrueGap(fleet, keep, ws, eps, x) && x > bound {
      GapsAreTrue(es, fleet, keep, ws, eps, x);
    }
  }

  lemma FleetNeverTwice(es: seq<ConnEvent>, fleet: seq<Actor>, keep: ConnEvent -> bool, ws: seq<RollWindow>, eps: Duration)
    requires WellFormed(fleet) && Recorded(es, fleet, keep)
    ensures forall c :: !InTwoWindows(EventSet(es), Attributor(ws, eps), |ws|, c)
  {
    InterleavingUnique(es, fleet, keep, ConnReset);
    AttributorResetsOnly(ws, eps);
    NeverTwice(es, Attributor(ws, eps), |ws|);
  }

  lemma FleetFailures(in_: Input, fleet: seq<Actor>, keep: ConnEvent -> bool)
    requires Recorded(in_.events, fleet, keep)
    ensures FactsOf(in_).newConnFailed <==> FailedDials(fleet, keep) > 0
  {
    NewConnExactness(in_, fleet, keep);
    CountZero(in_.events, OfKind(NewConnAttemptFail));
  }

  /**
   * The verdict is a fact about the workers: every interleaving of their events, or of whatever
   * part of them was logged, earns exactly the reasons that the connections, dials and waits it
   * shows earn, and is judged accordingly.
   */
  lemma FleetVerdict(in_: Input, fleet: seq<Actor>, keep: ConnEvent -> bool, k: Terms)
    requires WellFormed(fleet) && Recorded(in_.events, fleet, keep)
    requires k.eps == in_.config.jitterTolerance && k.bound == in_.config.recoveryBoundSeconds * 1_000_000_000
    requires k.prereqMissing == (in_.config.triggerPrereqError != "") && k.fired == in_.config.triggerFired
    ensures var f := FleetFacts(fleet, keep, in_.windows, k);
      && (forall r :: Violates(in_, r) <==> Follows(f, r))
      && Outcome(in_).reason == Lead(f)
      && Outcome(in_).verdict == VerdictFor(Lead(f))
      && (Outcome(in_).verdict == PASS <==> forall r :: !Follows(f, r))
  {
    var f, es, ws := FleetFacts(fleet, keep, in_.windows, k), in_.events, in_.windows;
    InstantFacts(in_);
    DeathsAreTrue(es, fleet, keep, ws, k.eps);
    StraysAreTrue(es, fleet, keep, ws, k.eps);
    FleetNeverTwice(es, fleet, keep, ws, k.eps);
    LossIsTrue(es, fleet, keep, ws, k.eps);
    LateWaits(es, fleet, keep, ws, k.eps, k.bound);
    FleetFailures(in_, fleet, keep);
    assert FactsOf(in_) == f;
    VerdictExact(in_);
    LeadLaw(f);
  }

  // ---------------------------------------------------------------- exact rows

  // Connection m.gen of a is shown to be reset, and window i is charged with it.
  ghost predicate HitBy(a: Actor, m: Emit, fleet: seq<Actor>, keep: ConnEvent -> bool, ws: seq<RollWindow>, eps: Duration, i: int) {
    a in fleet && a.Held? && WasReset(a.obs, m) && Shown(a, m, keep) && Bears(m.ts, ws, eps, i)
  }

  // ... and x later its worker is seen to dial again.
  ghost predicate WaitedIn(a: Actor, m: Emit, fleet: seq<Actor>, keep: ConnEvent -> bool, ws: seq<RollWindow>, eps: Duration,
                           i: int, x: Duration) {
    && HitBy(a, m, fleet, keep, ws, eps, i)
    && SeenDial(a, m.gen, keep).Some? && x == SeenDial(a, m.gen, keep).value - m.ts
  }

  // Some worker was hit in window i, and every one that was is seen to dial again.
  ghost predicate AllRedialled(fleet: seq<Actor>, keep: ConnEvent -> bool, ws: seq<RollWindow>, eps: Duration, i: int) {
    && (exists a, m :: HitBy(a, m, fleet, keep, ws, eps, i))
    && forall a, m :: HitBy(a, m, fleet, keep, ws, eps, i) ==> SeenDial(a, m.gen, keep).Some?
  }

  ghost predicate SomeWaitIn(fleet: seq<Actor>, keep: ConnEvent -> bool, ws: seq<RollWindow>, eps: Duration, i: int, x: Duration) {
    exists a, m :: WaitedIn(a, m, fleet, keep, ws, eps, i, x)
  }

  ghost predicate LongestWaitIn(fleet: seq<Actor>, keep: ConnEvent -> bool, ws: seq<RollWindow>, eps: Duration, i: int, x: Duration) {
    SomeWaitIn(fleet, keep, ws, eps, i, x) && forall y :: SomeWaitIn(fleet, keep, ws, eps, i, y) ==> y <= x
  }

  // What the row of window i says of the workers.
  ghost predicate FleetRow(p: PerNodeAttribution, fleet: seq<Actor>, keep: ConnEvent -> bool, ws: seq<RollWindow>, eps: Duration, i: int)
    requires 0 <= i < |ws|
  {
    && p.node == ws[i].node && p.window.drainingAt == ws[i].drainingAt
    && p.window.graceExpiresAt == ws[i].graceExpiresAt && p.window.readyAt == ws[i].readyAt
    && p.rawResets == p.distinctConnsReset
    && (p.recovered <==> AllRedialled(fleet, keep, ws, eps, i))
    && forall x :: p.recovery == Some(x) <==> p.recovered && LongestWaitIn(fleet, keep, ws, eps, i, x)
  }

  // A connection reset in window i is some worker's ...
  lemma HitSource(es: seq<ConnEvent>, fleet: seq<Actor>, keep: ConnEvent -> bool, ws: seq<RollWindow>, eps: Duration, i: nat, c: string)
      returns (a: Actor, m: Emit)
    requires Recorded(es, fleet, keep) && HitIn(es, ws, eps, i, c)
    ensures HitBy(a, m, fleet, keep, ws, eps, i) && c == HeldId(a.name, m.gen)
  {
    ConnsMean(es, ws, eps, i, c);
    a, m := AttributedSource(es, fleet, keep, ws, eps, i, c);
    ChargeMeans(ToEvent(a.name, a.node, m), ws, eps, i);
  }

  // ... and it waited until that worker's next dial.
  lemma HitWaits(es: seq<ConnEvent>, fleet: seq<Actor>, keep: ConnEvent -> bool, ws: seq<RollWindow>, eps: Duration, i: nat, a: Actor, m: Emit)
    requires WellFormed(fleet) && Recorded(es, fleet, keep) && HitBy(a, m, fleet, keep, ws, eps, i)
    ensures HitIn(es, ws, eps, i, HeldId(a.name, m.gen))
    ensures forall x :: Waits(es, ws, eps, i, HeldId(a.name, m.gen), x) <==> WaitFrom(m.ts, SeenDial(a, m.gen, keep)) == Some(x)
  {
    var c := HeldId(a.name, m.gen);
    BreaksAreScripted(a.obs, m);
    ChargeMeans(ToEvent(a.name, a.node, m), ws, eps, i);
    GapExact(es, fleet, keep, ws, eps, a, m);
    ConnsMean(es, ws, eps, i, c);
    forall x ensures Waits(es, ws, eps, i, c, x) <==> WaitFrom(m.ts, SeenDial(a, m.gen, keep)) == Some(x) {
      GapMeans(es, ws, eps, i, c, x);
    }
  }

  lemma RedialledIsBack(es: seq<ConnEvent>, fleet: seq<Actor>, keep: ConnEvent -> bool, ws: seq<RollWindow>, eps: Duration, i: nat)
    requires WellFormed(fleet) && Recorded(es, fleet, keep)
    ensures Tables.AllBack(es, ws, eps, i) <==> AllRedialled(fleet, keep, ws, eps, i)
  {
    forall c | HitIn(es, ws, eps, i, c)
      ensures exists a, m :: HitBy(a, m, fleet, keep, ws, eps, i) && c == HeldId(a.name, m.gen)
    {
      var a, m := HitSource(es, fleet, keep, ws, eps, i, c);
    }
    forall a, m | HitBy(a, m, fleet, keep, ws, eps, i)
      ensures HitIn(es, ws, eps, i, HeldId(a.name, m.gen))
      ensures (exists x :: Waits(es, ws, eps, i, HeldId(a.name, m.gen), x)) <==> SeenDial(a, m.gen, keep).Some?
    {
      HitWaits(es, fleet, keep, ws, eps, i, a, m);
      var back := SeenDial(a, m.gen, keep);
      if back.Some? {
        assert Waits(es, ws, eps, i, HeldId(a.name, m.gen), back.value - m.ts);
      }
    }
  }

  lemma WaitSource(es: seq<ConnEvent>, fleet: seq<Actor>, keep: ConnEvent -> bool, ws: seq<RollWindow>, eps: Duration, i: nat,
                   c: string, x: Duration) returns (a: Actor, m: Emit)
    requires WellFormed(fleet) && Recorded(es, fleet, keep) && Waits(es, ws, eps, i, c, x)
    ensures WaitedIn(a, m, fleet, keep, ws, eps, i, x)
  {
    WaitingWasHit(es, ws, eps, i, c, x);
    a, m := HitSource(es, fleet, keep, ws, eps, i, c);
    HitWaits(es, fleet, keep, ws, eps, i, a, m);
    assert WaitFrom(m.ts, SeenDial(a, m.gen, keep)) == Some(x);
  }

  lemma WaitsAreTrue(es: seq<ConnEvent>, fleet: seq<Actor>, keep: ConnEvent -> bool, ws: seq<RollWindow>, eps: Duration, i: nat, x: Duration)
    requires WellFormed(fleet) && Recorded(es, fleet, keep)
    ensures Tables.SomeWait(es, ws, eps, i, x) <==> SomeWaitIn(fleet, keep, ws, eps, i, x)
  {
    if Tables.SomeWait(es, ws, eps, i, x) {
      var c :| Waits(es, ws, eps, i, c, x);
      var a, m := WaitSource(es, fleet, keep, ws, eps, i, c, x);
    }
    if SomeWaitIn(fleet, keep, ws, eps, i, x) {
      var a, m :| WaitedIn(a, m, fleet, keep, ws, eps, i, x);
      WaitShown(es, fleet, keep, ws, eps, i, a, m, x);
    }
  }

  lemma WaitShown(es: seq<ConnEvent>, fleet: seq<Actor>, keep: ConnEvent -> bool, ws: seq<RollWindow>, eps: Duration, i: nat,
                  a: Actor, m: Emit, x: Duration)
    requires WellFormed(fleet) && Recorded(es, fleet, keep) && WaitedIn(a, m, fleet, keep, ws, eps, i, x)
    ensures Waits(es, ws, eps, i, HeldId(a.name, m.gen), x)
  {
    HitWaits(es, fleet, keep, ws, eps, i, a, m);
    assert WaitFrom(m.ts, SeenDial(a, m.gen, keep)) == Some(x);
  }

  lemma LongestIsTrue(es: seq<ConnEvent>, fleet: seq<Actor>, keep: ConnEvent -> bool, ws: seq<RollWindow>, eps: Duration, i: nat, x: Duration)
    requires WellFormed(fleet) && Recorded(es, fleet, keep)
    ensures Tables.LongestWait(es, ws, eps, i, x) <==> LongestWaitIn(fleet, keep, ws, eps, i, x)
  {
    forall y ensures Tables.SomeWait(es, ws, eps, i, y) <==> SomeWaitIn(fleet, keep, ws, eps, i, y) {
      WaitsAreTrue(es, fleet, keep, ws, eps, i, y);
    }
  }

  /**
   * The table of every interleaving, told by the workers: a row per window, recovered exactly when
   * somebody was hit there and everybody who was is seen to dial again, and then dated by the
   * longest of their waits.
   */
  lemma FleetTable(in_: Input, fleet: seq<Actor>, keep: ConnEvent -> bool) returns (rows: seq<PerNodeAttribution>)
    requires WellFormed(fleet) && Recorded(in_.events, fleet, keep)
    ensures multiset(rows) == multiset(Outcome(in_).perNodeAttribution)
    ensures |rows| == |in_.windows|
    ensures forall i :: 0 <= i < |rows| ==> FleetRow(rows[i], fleet, keep, in_.windows, in_.config.jitterTolerance, i)
  {
    var es, ws, eps := in_.events, in_.windows, in_.config.jitterTolerance;
    rows := Tables.TableMeans(in_);
    AttributionExact(in_, fleet, keep);
    SameElements(rows, Outcome(in_).perNodeAttribution);
    forall i | 0 <= i < |rows| ensures FleetRow(rows[i], fleet, keep, ws, eps, i) {
      assert rows[i] in rows && Tables.RowMeans(rows[i], es, ws, eps, i);
      RedialledIsBack(es, fleet, keep, ws, eps, i);
      forall x ensures Tables.LongestWait(es, ws, eps, i, x) <==> LongestWaitIn(fleet, keep, ws, eps, i, x) {
        LongestIsTrue(es, fleet, keep, ws, eps, i, x);
      }
    }
  }
}
