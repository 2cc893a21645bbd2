/**
 * How the outcome depends on the event stream: not on its order, additively over streams that
 * share no connection, with every reset accounted for, and not on what a log cutoff removes.
 */
module EventTheorems {
  import opened Wrappers
  import opened Model
  import opened Collections
  import opened VerdictSpec
  import opened AttributionOrder
  import opened Diagnosis
  import opened Analyzer

  // ------------------------------------------------------------- event order

  lemma {:induction false} EventAnomaliesConcat(a: seq<ConnEvent>, b: seq<ConnEvent>, ws: seq<RollWindow>, eps: Duration)
    ensures EventAnomalies(a + b, ws, eps) == EventAnomalies(a, ws, eps) + EventAnomalies(b, ws, eps)
  {
    if b == [] {
      assert a + b == a;
    } else {
      assert (a + b)[..|a + b| - 1] == a + b[..|b| - 1];
      EventAnomaliesConcat(a, b[..|b| - 1], ws, eps);
    }
  }

  // Permutations remove the last element of a somewhere inside b.
  lemma SplitAtLast<T>(a: seq<T>, b: seq<T>) returns (i: nat)
    requires a != [] && multiset(a) == multiset(b)
    ensures i < |b| && b[i] == a[|a| - 1] && b == b[..i] + [b[i]] + b[i + 1..]
    ensures multiset(a[..|a| - 1]) == multiset(b[..i] + b[i + 1..])
  {
    var x := a[|a| - 1];
    assert x in multiset(a);
    i :| 0 <= i < |b| && b[i] == x;
    assert a == a[..|a| - 1] + [x];
    assert b == b[..i] + [x] + b[i + 1..];
    assert multiset(a[..|a| - 1]) == multiset(a) - multiset{x};
    assert multiset(b[..i] + b[i + 1..]) == multiset(b) - multiset{x};
  }

  lemma {:induction false} EventAnomaliesPermutation(a: seq<ConnEvent>, b: seq<ConnEvent>, ws: seq<RollWindow>, eps: Duration)
    requires multiset(a) == multiset(b)
    ensures multiset(EventAnomalies(a, ws, eps)) == multiset(EventAnomalies(b, ws, eps))
  {
    if a == [] {
      assert |multiset(b)| == 0;
    } else {
      var i := SplitAtLast(a, b);
      EventAnomaliesPermutation(a[..|a| - 1], b[..i] + b[i + 1..], ws, eps);
      EventAnomaliesConcat(b[..i], b[i + 1..], ws, eps);
      EventAnomaliesConcat(b[..i], [b[i]], ws, eps);
      EventAnomaliesConcat(b[..i] + [b[i]], b[i + 1..], ws, eps);
      assert EventAnomalies([b[i]], ws, eps) == EventAnomaly(b[i], ws, eps) by {
        assert [b[i]][..0] == [];
      }
    }
  }

  lemma SameAttributions(a: seq<ConnEvent>, b: seq<ConnEvent>, o: ConnEvent -> int, ws: seq<RollWindow>)
    requires multiset(a) == multiset(b) && EventSet(a) == EventSet(b)
    ensures Attributions(a, o, ws) == Attributions(b, o, ws)
  {
    forall i | 0 <= i < |ws| ensures Attribution(a, o, ws[i], i) == Attribution(b, o, ws[i], i) {
      CountPermutation(a, b, Charged(o, i));
    }
  }

  /** Reordering the events changes nothing but the order in which anomalies are listed. */
  lemma EventOrderIndependence(a: Input, b: Input)
    requires b == a.(events := b.events) && multiset(a.events) == multiset(b.events)
    ensures Outcome(b) == Outcome(a).(anomalies := Outcome(b).anomalies)
    ensures multiset(Outcome(a).anomalies) == multiset(Outcome(b).anomalies)
  {
    SameElements(a.events, b.events);
    assert EventSet(a.events) == EventSet(b.events);
    SameAttributions(a.events, b.events, Attributor(a.windows, a.config.jitterTolerance), a.windows);
    CountPermutation(a.events, b.events, OfKind(NewConnAttemptFail));
    CountPermutation(a.events, b.events, OfKind(ConnReset));
    EventAnomaliesPermutation(a.events, b.events, a.windows, a.config.jitterTolerance);
    VerdictExact(a);
    VerdictExact(b);
  }

  // ----------------------------------------------------------- decomposition

  predicate Measured(e: ConnEvent) {
    e.kind == ConnReset || e.kind == ConnReconnected
  }

  // The two streams never measure the same connection.
  ghost predicate Separate(E: set<ConnEvent>, F: set<ConnEvent>) {
    forall e, f :: e in E && f in F && Measured(e) && Measured(f) ==> e.connId != f.connId
  }

  // o charges resets only.
  ghost predicate ResetsOnly(o: ConnEvent -> int, n: nat) {
    forall e :: -1 <= o(e) < n && (o(e) != -1 ==> e.kind == ConnReset)
  }

  lemma AttributorResetsOnly(ws: seq<RollWindow>, eps: Duration)
    ensures ResetsOnly(Attributor(ws, eps), |ws|)
  {
    AttributorBounded(ws, eps);
  }

  lemma ConnsUnion(E: set<ConnEvent>, F: set<ConnEvent>, o: ConnEvent -> int, i: int)
    ensures ResetConns(E + F, o, i) == ResetConns(E, o, i) + ResetConns(F, o, i)
  {
  }

  lemma GapOnLeft(E: set<ConnEvent>, F: set<ConnEvent>, o: ConnEvent -> int, n: nat, i: nat, c: string)
    requires Separate(E, F) && ResetsOnly(o, n) && c in ResetConns(E, o, i)
    ensures c !in ResetConns(F, o, i) && Gap(E + F, o, i, c) == Gap(E, o, i, c)
    ensures forall j: nat :: c !in ResetConns(F, o, j)
  {
    var e :| e in E && o(e) == i && e.connId == c;
    assert Measured(e);
    assert ResetTimes(E + F, o, i, c) == ResetTimes(E, o, i, c);
    assert ReconnectTimes(E + F, c) == ReconnectTimes(E, c);
  }

  lemma GapsUnion(E: set<ConnEvent>, F: set<ConnEvent>, o: ConnEvent -> int, n: nat, i: nat)
    requires Separate(E, F) && ResetsOnly(o, n)
    ensures ResetConns(E, o, i) !! ResetConns(F, o, i)
    ensures WindowGaps(E + F, o, i) == WindowGaps(E, o, i) + WindowGaps(F, o, i)
    ensures WindowUnrecovered(E + F, o, i) <==> WindowUnrecovered(E, o, i) || WindowUnrecovered(F, o, i)
  {
    ConnsUnion(E, F, o, i);
    assert E + F == F + E;
    forall c | c in ResetConns(E, o, i)
      ensures c !in ResetConns(F, o, i) && Gap(E + F, o, i, c) == Gap(E, o, i, c)
    {
      GapOnLeft(E, F, o, n, i, c);
    }
    forall c | c in ResetConns(F, o, i) ensures Gap(E + F, o, i, c) == Gap(F, o, i, c) {
      GapOnLeft(F, E, o, n, i, c);
    }
  }

  lemma GapInUnion(E: set<ConnEvent>, F: set<ConnEvent>, o: ConnEvent -> int, n: nat, x: Duration)
    requires Separate(E, F) && ResetsOnly(o, n)
    ensures x in AllGaps(E + F, o, n) <==> x in AllGaps(E, o, n) || x in AllGaps(F, o, n)
  {
    AllGapsExact(E, o, n, x);
    AllGapsExact(F, o, n, x);
    AllGapsExact(E + F, o, n, x);
    forall i: nat ensures x in WindowGaps(E + F, o, i) <==> x in WindowGaps(E, o, i) || x in WindowGaps(F, o, i) {
      GapsUnion(E, F, o, n, i);
    }
  }

  lemma AllGapsUnion(E: set<ConnEvent>, F: set<ConnEvent>, o: ConnEvent -> int, n: nat)
    requires Separate(E, F) && ResetsOnly(o, n)
    ensures AllGaps(E + F, o, n) == AllGaps(E, o, n) + AllGaps(F, o, n)
  {
    forall x ensures x in AllGaps(E + F, o, n) <==> x in AllGaps(E, o, n) + AllGaps(F, o, n) {
      GapInUnion(E, F, o, n, x);
    }
  }

  lemma UnrecoveredUnion(E: set<ConnEvent>, F: set<ConnEvent>, o: ConnEvent -> int, n: nat)
    requires Separate(E, F) && ResetsOnly(o, n)
    ensures AnyUnrecovered(E + F, o, n) <==> AnyUnrecovered(E, o, n) || AnyUnrecovered(F, o, n)
  {
    forall i: nat
      ensures WindowUnrecovered(E + F, o, i) <==> WindowUnrecovered(E, o, i) || WindowUnrecovered(F, o, i)
    {
      GapsUnion(E, F, o, n, i);
    }
  }

  lemma OverBoundIs(E: set<ConnEvent>, o: ConnEvent -> int, n: nat, bound: Duration)
    ensures OverBound(E, o, n, bound) <==> exists x :: x in AllGaps(E, o, n) && x > bound
  {
    if i, c :| 0 <= i < n && c in ResetConns(E, o, i) && Gap(E, o, i, c).Some? && Gap(E, o, i, c).value > bound {
      assert Gap(E, o, i, c).value in WindowGaps(E, o, i);
      AllGapsExact(E, o, n, Gap(E, o, i, c).value);
    }
    if x :| x in AllGaps(E, o, n) && x > bound {
      AllGapsExact(E, o, n, x);
    }
  }

  lemma TwoWindowsUnion(E: set<ConnEvent>, F: set<ConnEvent>, o: ConnEvent -> int, n: nat, c: string)
    requires Separate(E, F) && ResetsOnly(o, n)
    ensures InTwoWindows(E + F, o, n, c) <==> InTwoWindows(E, o, n, c) || InTwoWindows(F, o, n, c)
  {
    forall i: nat ensures ResetConns(E + F, o, i) == ResetConns(E, o, i) + ResetConns(F, o, i)
                  ensures c in ResetConns(E, o, i) ==> forall j: nat :: c !in ResetConns(F, o, j)
    {
      ConnsUnion(E, F, o, i);
      if c in ResetConns(E, o, i) {
        GapOnLeft(E, F, o, n, i, c);
      }
    }
  }

  function Worse(a: Verdict, b: Verdict): Verdict {
    if a == ERROR || b == ERROR then ERROR
    else if a == FAIL || b == FAIL then FAIL
    else PASS
  }

  function Earlier(a: Option<Reason>, b: Option<Reason>): Option<Reason> {
    if a.None? then b
    else if b.None? || Rank(a.value) <= Rank(b.value) then a
    else b
  }

  ghost predicate SplitInput(a: Input, b: Input, ab: Input) {
    && b == a.(events := b.events)
    && ab == a.(events := a.events + b.events)
    && Separate(EventSet(a.events), EventSet(b.events))
  }

  lemma UnionFacts(E: set<ConnEvent>, F: set<ConnEvent>, o: ConnEvent -> int, n: nat, bound: Duration)
    requires Separate(E, F) && ResetsOnly(o, n)
    ensures AnyUnrecovered(E + F, o, n) <==> AnyUnrecovered(E, o, n) || AnyUnrecovered(F, o, n)
    ensures OverBound(E + F, o, n, bound) <==> OverBound(E, o, n, bound) || OverBound(F, o, n, bound)
    ensures (exists c :: InTwoWindows(E + F, o, n, c))
       <==> (exists c :: InTwoWindows(E, o, n, c)) || (exists c :: InTwoWindows(F, o, n, c))
  {
    UnrecoveredUnion(E, F, o, n);
    AllGapsUnion(E, F, o, n);
    OverBoundIs(E, o, n, bound);
    OverBoundIs(F, o, n, bound);
    OverBoundIs(E + F, o, n, bound);
    forall c ensures InTwoWindows(E + F, o, n, c) <==> InTwoWindows(E, o, n, c) || InTwoWindows(F, o, n, c) {
      TwoWindowsUnion(E, F, o, n, c);
    }
  }

  // Facts about the events of a union of streams; the windows and the configuration are shared.
  function Join(f: Facts, g: Facts): Facts {
    f.(died := f.died || g.died, dropped := f.dropped || g.dropped,
       twoWindows := f.twoWindows || g.twoWindows, unrecovered := f.unrecovered || g.unrecovered,
       overBound := f.overBound || g.overBound, newConnFailed := f.newConnFailed || g.newConnFailed)
  }

  predicate Agree(f: Facts, g: Facts) {
    && f.prereqMissing == g.prereqMissing && f.noRollout == g.noRollout
    && f.halfOpen == g.halfOpen && f.overlapping == g.overlapping
  }

  lemma FactsAgree(a: Input, b: Input, ab: Input)
    requires SplitInput(a, b, ab)
    ensures Agree(FactsOf(a), FactsOf(b))
  {
  }

  lemma FactsUnion(a: Input, b: Input, ab: Input)
    requires SplitInput(a, b, ab)
    ensures FactsOf(ab) == Join(FactsOf(a), FactsOf(b))
  {
    var E, F, o, n := EventSet(a.events), EventSet(b.events),
                      Attributor(a.windows, a.config.jitterTolerance), |a.windows|;
    assert EventSet(ab.events) == E + F;
    AttributorResetsOnly(a.windows, a.config.jitterTolerance);
    UnionFacts(E, F, o, n, a.config.recoveryBoundSeconds * SECOND);
  }

  // A connection lost for good in one stream silences an over-bound recovery in the other, so
  // the joint lead is still the earlier of the two.
  lemma LeadJoin(f: Facts, g: Facts)
    requires Agree(f, g)
    ensures Lead(Join(f, g)) == Earlier(Lead(f), Lead(g))
    ensures VerdictFor(Lead(Join(f, g))) == Worse(VerdictFor(Lead(f)), VerdictFor(Lead(g)))
  {
  }

  /**
   * Streams that measure different connections can be analysed apart: the joint verdict is the
   * worse of the two, the joint reason the earlier of the two in precedence.
   */
  lemma Decomposition(a: Input, b: Input, ab: Input)
    requires SplitInput(a, b, ab)
    ensures Outcome(ab).verdict == Worse(Outcome(a).verdict, Outcome(b).verdict)
    ensures Outcome(ab).reason == Earlier(Outcome(a).reason, Outcome(b).reason)
  {
    FactsUnion(a, b, ab);
    FactsAgree(a, b, ab);
    LeadJoin(FactsOf(a), FactsOf(b));
    VerdictExact(a);
    VerdictExact(b);
    VerdictExact(ab);
  }

  // The longest recovery of a joint stream: none if either part lost a connection for good.
  ghost function JointRecovery(a: Result, b: Result): Option<Duration> {
    if Lost(a) || Lost(b) then None else Longer(a.recovery, b.recovery)
  }

  function Longer(x: Option<Duration>, y: Option<Duration>): Option<Duration> {
    if x.None? then y
    else if y.None? || x.value >= y.value then x
    else y
  }

  ghost predicate Lost(r: Result) {
    Reported(r.anomalies, PoolNotRecovered)
  }

  // Row by row the same window, with the counts of p and q added up in r.
  ghost predicate AddsUp(p: seq<PerNodeAttribution>, q: seq<PerNodeAttribution>, r: seq<PerNodeAttribution>) {
    |p| == |q| == |r| && forall k :: 0 <= k < |r| ==> RowAddsUp(p[k], q[k], r[k])
  }

  predicate RowAddsUp(p: PerNodeAttribution, q: PerNodeAttribution, r: PerNodeAttribution) {
    && p.node == q.node == r.node && p.window == q.window == r.window
    && r.rawResets == p.rawResets + q.rawResets
    && r.distinctConnsReset == p.distinctConnsReset + q.distinctConnsReset
  }

  // Rows that agree in their keys are inserted at the same place.
  lemma {:induction false} InsertAddsUp(p: seq<PerNodeAttribution>, x: PerNodeAttribution,
                                        q: seq<PerNodeAttribution>, y: PerNodeAttribution,
                                        r: seq<PerNodeAttribution>, z: PerNodeAttribution)
    requires AddsUp(p, q, r) && RowAddsUp(x, y, z)
    ensures AddsUp(InsertAttribution(p, x), InsertAttribution(q, y), InsertAttribution(r, z))
  {
    if r != [] && Before(z, r[|r| - 1]) {
      var n := |r| - 1;
      assert RowAddsUp(p[n], q[n], r[n]);
      InsertAddsUp(p[..n], x, q[..n], y, r[..n], z);
    }
  }

  lemma {:induction false} SortAddsUp(p: seq<PerNodeAttribution>, q: seq<PerNodeAttribution>, r: seq<PerNodeAttribution>)
    requires AddsUp(p, q, r)
    ensures AddsUp(StableSort(p), StableSort(q), StableSort(r))
  {
    if r != [] {
      var n := |r| - 1;
      SortAddsUp(p[..n], q[..n], r[..n]);
      InsertAddsUp(StableSort(p[..n]), p[n], StableSort(q[..n]), q[n], StableSort(r[..n]), r[n]);
    }
  }

  lemma WindowAddsUp(a: seq<ConnEvent>, b: seq<ConnEvent>, o: ConnEvent -> int, n: nat, w: RollWindow, i: nat)
    requires Separate(EventSet(a), EventSet(b)) && ResetsOnly(o, n)
    ensures RowAddsUp(Attribution(a, o, w, i), Attribution(b, o, w, i), Attribution(a + b, o, w, i))
  {
    assert EventSet(a + b) == EventSet(a) + EventSet(b);
    CountConcat(a, b, Charged(o, i));
    ConnsUnion(EventSet(a), EventSet(b), o, i);
    GapsUnion(EventSet(a), EventSet(b), o, n, i);
  }

  lemma WindowsAddUp(a: seq<ConnEvent>, b: seq<ConnEvent>, o: ConnEvent -> int, ws: seq<RollWindow>)
    requires Separate(EventSet(a), EventSet(b)) && ResetsOnly(o, |ws|)
    ensures AddsUp(Attributions(a, o, ws), Attributions(b, o, ws), Attributions(a + b, o, ws))
  {
    forall i: nat | i < |ws|
      ensures RowAddsUp(Attribution(a, o, ws[i], i), Attribution(b, o, ws[i], i), Attribution(a + b, o, ws[i], i))
    {
      WindowAddsUp(a, b, o, |ws|, ws[i], i);
    }
  }

  /** ... and every count adds up, row by row of the three tables, which line up. */
  lemma DecompositionCounts(a: Input, b: Input, ab: Input)
    requires SplitInput(a, b, ab)
    ensures Outcome(ab).newConnFailures == Outcome(a).newConnFailures + Outcome(b).newConnFailures
    ensures Outcome(ab).existingConnRSTs == Outcome(a).existingConnRSTs + Outcome(b).existingConnRSTs
    ensures Outcome(ab).recovery == JointRecovery(Outcome(a), Outcome(b))
    ensures AddsUp(Outcome(a).perNodeAttribution, Outcome(b).perNodeAttribution, Outcome(ab).perNodeAttribution)
  {
    var o := Attributor(a.windows, a.config.jitterTolerance);
    AttributorResetsOnly(a.windows, a.config.jitterTolerance);
    CountConcat(a.events, b.events, OfKind(NewConnAttemptFail));
    CountConcat(a.events, b.events, OfKind(ConnReset));
    WindowsAddUp(a.events, b.events, o, a.windows);
    SortAddsUp(Attributions(a.events, o, a.windows), Attributions(b.events, o, a.windows),
               Attributions(ab.events, o, a.windows));
    JointRecoveryIs(a, b, ab);
  }

  lemma JointRecoveryIs(a: Input, b: Input, ab: Input)
    requires SplitInput(a, b, ab)
    ensures Outcome(ab).recovery == JointRecovery(Outcome(a), Outcome(b))
  {
    assert EventSet(ab.events) == EventSet(a.events) + EventSet(b.events);
    AttributorResetsOnly(a.windows, a.config.jitterTolerance);
    LostIs(a);
    LostIs(b);
    JointMaxRecovery(EventSet(a.events), EventSet(b.events), Attributor(a.windows, a.config.jitterTolerance), |a.windows|);
  }

  lemma JointMaxRecovery(E: set<ConnEvent>, F: set<ConnEvent>, o: ConnEvent -> int, n: nat)
    requires Separate(E, F) && ResetsOnly(o, n)
    ensures MaxRecovery(E + F, o, n)
         == if AnyUnrecovered(E, o, n) || AnyUnrecovered(F, o, n) then None
            else Longer(MaxRecovery(E, o, n), MaxRecovery(F, o, n))
  {
    UnrecoveredUnion(E, F, o, n);
    AllGapsUnion(E, F, o, n);
    MaxUnion(AllGaps(E, o, n), AllGaps(F, o, n));
  }

  lemma LostIs(a: Input)
    ensures Lost(Outcome(a))
       <==> AnyUnrecovered(EventSet(a.events), Attributor(a.windows, a.config.jitterTolerance), |a.windows|)
  {
    VerdictExact(a);
    assert Reported(Outcome(a).anomalies, PoolNotRecovered) <==> Violates(a, PoolNotRecovered);
  }

  lemma MaxUnion(s: set<int>, t: set<int>)
    ensures s != {} && t != {} ==> Max(s + t) == if Max(s) >= Max(t) then Max(s) else Max(t)
    ensures t == {} ==> s + t == s
    ensures s == {} ==> s + t == t
  {
    if s != {} && t != {} {
      assert Max(s) in s + t && Max(t) in s + t;
    }
  }

  // ------------------------------------------------------------ conservation

  ghost function EarlyReset(ws: seq<RollWindow>, eps: Duration): ConnEvent -> bool {
    (e: ConnEvent) => e.kind == ConnReset && Early(e.ts, ws, eps)
  }

  ghost function DroppedPred(ws: seq<RollWindow>, eps: Duration): ConnEvent -> bool {
    (e: ConnEvent) => Dropped(e, ws, eps)
  }

  ghost function ChargedBelow(o: ConnEvent -> int, n: int): ConnEvent -> bool {
    (e: ConnEvent) => 0 <= o(e) < n
  }

  function Raw(ps: seq<PerNodeAttribution>): nat {
    if ps == [] then 0 else Raw(ps[..|ps| - 1]) + ps[|ps| - 1].rawResets
  }

  function ReasonIs(r: Reason): Anomaly -> bool {
    (a: Anomaly) => a.reason == r
  }

  lemma {:induction false} CountSplit<T>(s: seq<T>, p: T -> bool, q: T -> bool, r: T -> bool)
    requires forall x :: x in s ==> (p(x) <==> q(x) || r(x)) && !(q(x) && r(x))
    ensures Count(s, p) == Count(s, q) + Count(s, r)
  {
    if s != [] {
      assert s == s[..|s| - 1] + [s[|s| - 1]];
      CountSplit(s[..|s| - 1], p, q, r);
    }
  }

  lemma {:induction false} RawInsert(s: seq<PerNodeAttribution>, x: PerNodeAttribution)
    ensures Raw(InsertAttribution(s, x)) == Raw(s) + x.rawResets
  {
    if s != [] && Before(x, s[|s| - 1]) {
      RawInsert(s[..|s| - 1], x);
      assert InsertAttribution(s, x)[..|InsertAttribution(s, x)| - 1] == InsertAttribution(s[..|s| - 1], x);
    } else {
      assert (s + [x])[..|s|] == s;
    }
  }

  lemma {:induction false} RawSort(s: seq<PerNodeAttribution>)
    ensures Raw(StableSort(s)) == Raw(s)
  {
    if s != [] {
      RawSort(s[..|s| - 1]);
      RawInsert(StableSort(s[..|s| - 1]), s[|s| - 1]);
    }
  }

  lemma {:induction false} RawIsCharged(es: seq<ConnEvent>, o: ConnEvent -> int, ws: seq<RollWindow>)
    ensures Raw(Attributions(es, o, ws)) == Count(es, ChargedBelow(o, |ws|))
  {
    var ps := Attributions(es, o, ws);
    if ws == [] {
      CountZero(es, ChargedBelow(o, 0));
    } else {
      var n := |ws| - 1;
      RawIsCharged(es, o, ws[..n]);
      assert ps[..n] == Attributions(es, o, ws[..n]);
      CountSplit(es, ChargedBelow(o, n + 1), ChargedBelow(o, n), Charged(o, n));
    }
  }

  lemma {:induction false} DropsCounted(es: seq<ConnEvent>, ws: seq<RollWindow>, eps: Duration)
    ensures Count(EventAnomalies(es, ws, eps), ReasonIs(DropOnNonUpgradingNode)) == Count(es, DroppedPred(ws, eps))
  {
    if es != [] {
      var n := |es| - 1;
      var rest, last := EventAnomalies(es[..n], ws, eps), EventAnomaly(es[n], ws, eps);
      DropsCounted(es[..n], ws, eps);
      CountConcat(rest, last, ReasonIs(DropOnNonUpgradingNode));
      assert last != [] ==> last[..0] == [];
      assert Dropped(es[n], ws, eps) ==> last == [At(DropOnNonUpgradingNode, es[n])];
    }
  }

  lemma CountFive<T>(a: seq<T>, b: seq<T>, c: seq<T>, d: seq<T>, e: seq<T>, p: T -> bool)
    ensures Count(a + b + c + d + e, p) == Count(a, p) + Count(b, p) + Count(c, p) + Count(d, p) + Count(e, p)
  {
    CountConcat(a, b, p);
    CountConcat(a + b, c, p);
    CountConcat(a + b + c, d, p);
    CountConcat(a + b + c + d, e, p);
  }

  // A block whose reasons are all other than r holds none of r.
  lemma NoneOf(block: seq<Anomaly>, r: Reason)
    requires r !in Summarise(block).reasons
    ensures Count(block, ReasonIs(r)) == 0
  {
    forall a | a in block ensures !ReasonIs(r)(a) {
      assert a.reason in Summarise(block).reasons;
    }
    CountZero(block, ReasonIs(r));
  }

  lemma NoOtherDrops(in_: Input)
    ensures var E, o := EventSet(in_.events), Attributor(in_.windows, in_.config.jitterTolerance);
      var r := ReasonIs(DropOnNonUpgradingNode);
      && Count(WindowAnomalies(in_), r) == 0
      && Count(SameConnAnomalies(SortedSeq(DoubleConns(E, o, |in_.windows|))), r) == 0
      && Count(RecoveryAnomalies(E, o, |in_.windows|, in_.config), r) == 0
      && Count(NewConnAnomalies(in_.events), r) == 0
  {
    var E, o, r := EventSet(in_.events), Attributor(in_.windows, in_.config.jitterTolerance), DropOnNonUpgradingNode;
    SummariseWindowPart(in_);
    WindowReasons(FactsOf(in_), r);
    NoneOf(WindowAnomalies(in_), r);
    SummariseSameConnPart(in_, E, o);
    NoneOf(SameConnAnomalies(SortedSeq(DoubleConns(E, o, |in_.windows|))), r);
    SummariseRecoveryPart(in_, E, o);
    NoneOf(RecoveryAnomalies(E, o, |in_.windows|, in_.config), r);
    SummariseNewConnPart(in_);
    NoneOf(NewConnAnomalies(in_.events), r);
  }

  lemma DropsReported(in_: Input)
    ensures Count(Anomalies(in_), ReasonIs(DropOnNonUpgradingNode))
         == Count(in_.events, DroppedPred(in_.windows, in_.config.jitterTolerance))
  {
    var es, ws, cfg := in_.events, in_.windows, in_.config;
    var E, o := EventSet(es), Attributor(ws, cfg.jitterTolerance);
    NoOtherDrops(in_);
    DropsCounted(es, ws, cfg.jitterTolerance);
    CountFive(WindowAnomalies(in_), EventAnomalies(es, ws, cfg.jitterTolerance),
              SameConnAnomalies(SortedSeq(DoubleConns(E, o, |ws|))),
              RecoveryAnomalies(E, o, |ws|, cfg), NewConnAnomalies(es), ReasonIs(DropOnNonUpgradingNode));
  }

  /** Every socket reset lands in exactly one place: a window, a drop, or before the first drain. */
  lemma ResetConservation(in_: Input)
    ensures var res := Outcome(in_);
      res.existingConnRSTs == Raw(res.perNodeAttribution)
                              + Count(res.anomalies, ReasonIs(DropOnNonUpgradingNode))
                              + Count(in_.events, EarlyReset(in_.windows, in_.config.jitterTolerance))
  {
    var es, ws, eps := in_.events, in_.windows, in_.config.jitterTolerance;
    var o, n := Attributor(ws, eps), |ws|;
    RawSort(Attributions(es, o, ws));
    RawIsCharged(es, o, ws);
    DropsReported(in_);
    AttributorResetsOnly(ws, eps);
    var outside := (e: ConnEvent) => e.kind == ConnReset && o(e) == -1;
    forall e | e in es ensures EarlyReset(ws, eps)(e) ==> o(e) == -1 {
      if EarlyReset(ws, eps)(e) { EarlyUnowned(e, ws, eps); }
    }
    CountSplit(es, OfKind(ConnReset), ChargedBelow(o, n), outside);
    CountSplit(es, outside, DroppedPred(ws, eps), EarlyReset(ws, eps));
  }

  /** No window counts more connections than resets, and it has either both or neither. */
  lemma {:induction false} DistinctWithinRaw(es: seq<ConnEvent>, o: ConnEvent -> int, w: RollWindow, i: nat)
    ensures var p := Attribution(es, o, w, i);
      p.distinctConnsReset <= p.rawResets && (p.rawResets == 0 <==> p.distinctConnsReset == 0)
  {
    if es != [] {
      var n := |es| - 1;
      DistinctWithinRaw(es[..n], o, w, i);
      EventSetSnoc(es, n);
      assert es[..n + 1] == es;
      ResetConnsAdd(EventSet(es[..n]), es[n], o, i);
    }
  }

  // -------------------------------------------------------------- log cutoff

  // No connection comes back before it was reset.
  ghost predicate Causal(E: set<ConnEvent>) {
    forall e, f :: e in E && f in E && e.kind == ConnReset && f.kind == ConnReconnected && e.connId == f.connId
      ==> e.ts <= f.ts
  }

  // The log keeps whatever happened once the first widened drain had begun.
  ghost predicate SafeLog(in_: Input, keep: ConnEvent -> bool) {
    forall e, w :: e in in_.events && w in in_.windows && e.ts >= w.drainingAt - in_.config.jitterTolerance ==> keep(e)
  }

  // What is left of an input when only part of its events was logged.
  ghost function Logged(in_: Input, keep: ConnEvent -> bool): Input {
    in_.(events := Filter(in_.events, keep))
  }

  ghost predicate Kept(E: set<ConnEvent>, K: set<ConnEvent>, keep: ConnEvent -> bool) {
    forall e :: e in K <==> e in E && keep(e)
  }

  lemma FilterKeeps(es: seq<ConnEvent>, keep: ConnEvent -> bool)
    ensures Kept(EventSet(es), EventSet(Filter(es, keep)), keep)
  {
    FilterElements(es, keep);
  }

  // Window i keeps its resets, and with them everything its attribution is made of.
  ghost predicate SameWindow(E: set<ConnEvent>, K: set<ConnEvent>, o: ConnEvent -> int, i: int) {
    && ResetConns(K, o, i) == ResetConns(E, o, i)
    && WindowGaps(K, o, i) == WindowGaps(E, o, i)
    && (WindowUnrecovered(K, o, i) <==> WindowUnrecovered(E, o, i))
  }

  lemma KeptWindow(E: set<ConnEvent>, K: set<ConnEvent>, keep: ConnEvent -> bool, from: Time, o: ConnEvent -> int, i: int)
    requires Kept(E, K, keep) && Causal(E)
    requires forall e :: e in E && e.ts >= from ==> keep(e)
    requires forall e :: e in E && o(e) == i ==> e.kind == ConnReset && e.ts >= from
    ensures SameWindow(E, K, o, i)
  {
    assert ResetConns(K, o, i) == ResetConns(E, o, i);
    forall c | c in ResetConns(E, o, i) ensures Gap(K, o, i, c) == Gap(E, o, i, c) {
      assert ResetTimes(K, o, i, c) == ResetTimes(E, o, i, c);
      var e :| e in E && o(e) == i && e.connId == c;
      assert ReconnectTimes(K, c) == ReconnectTimes(E, c);
    }
  }

  lemma ResetsAreLate(in_: Input, i: nat)
    requires i < |in_.windows|
    ensures var ws, eps := in_.windows, in_.config.jitterTolerance;
      forall e :: e in EventSet(in_.events) && Attributor(ws, eps)(e) == i
                  ==> e.kind == ConnReset && e.ts >= ws[i].drainingAt - eps
  {
    var ws, eps := in_.windows, in_.config.jitterTolerance;
    forall e | e in EventSet(in_.events) && Attributor(ws, eps)(e) == i
      ensures e.kind == ConnReset && e.ts >= ws[i].drainingAt - eps
    {
      OwnedNotEarly(e, ws, eps);
    }
  }

  lemma CutoffWindow(in_: Input, keep: ConnEvent -> bool, o: ConnEvent -> int, i: nat)
    requires SafeLog(in_, keep) && Causal(EventSet(in_.events)) && i < |in_.windows|
    requires o == Attributor(in_.windows, in_.config.jitterTolerance)
    ensures SameWindow(EventSet(in_.events), EventSet(Filter(in_.events, keep)), o, i)
    ensures Attribution(Filter(in_.events, keep), o, in_.windows[i], i) == Attribution(in_.events, o, in_.windows[i], i)
  {
    FilterKeeps(in_.events, keep);
    ResetsAreLate(in_, i);
    assert in_.windows[i] in in_.windows;
    var from := in_.windows[i].drainingAt - in_.config.jitterTolerance;
    FilterCounts(in_.events, keep, Charged(o, i));
    KeptWindow(EventSet(in_.events), EventSet(Filter(in_.events, keep)), keep, from, o, i);
  }

  lemma {:induction false} SameGaps(E: set<ConnEvent>, K: set<ConnEvent>, o: ConnEvent -> int, n: nat)
    requires forall i: nat :: i < n ==> SameWindow(E, K, o, i)
    ensures AllGaps(K, o, n) == AllGaps(E, o, n)
    ensures AnyUnrecovered(K, o, n) <==> AnyUnrecovered(E, o, n)
    ensures forall bound :: OverBound(K, o, n, bound) <==> OverBound(E, o, n, bound)
    ensures forall c :: InTwoWindows(K, o, n, c) <==> InTwoWindows(E, o, n, c)
  {
    SameAllGaps(E, K, o, n);
    forall bound ensures OverBound(K, o, n, bound) <==> OverBound(E, o, n, bound) {
      OverBoundIs(E, o, n, bound);
      OverBoundIs(K, o, n, bound);
    }
    forall i: nat | i < n
      ensures WindowUnrecovered(K, o, i) <==> WindowUnrecovered(E, o, i)
      ensures ResetConns(K, o, i) == ResetConns(E, o, i)
    {
      assert SameWindow(E, K, o, i);
    }
  }

  lemma {:induction false} SameAllGaps(E: set<ConnEvent>, K: set<ConnEvent>, o: ConnEvent -> int, n: nat)
    requires forall i: nat :: i < n ==> SameWindow(E, K, o, i)
    ensures AllGaps(K, o, n) == AllGaps(E, o, n)
  {
    if n > 0 {
      assert WindowGaps(K, o, n - 1) == WindowGaps(E, o, n - 1) by { assert SameWindow(E, K, o, n - 1); }
      assert AllGaps(K, o, n - 1) == AllGaps(E, o, n - 1) by { SameAllGaps(E, K, o, n - 1); }
    }
  }

  lemma CutoffWindows(in_: Input, keep: ConnEvent -> bool, o: ConnEvent -> int)
    requires SafeLog(in_, keep) && Causal(EventSet(in_.events))
    requires o == Attributor(in_.windows, in_.config.jitterTolerance)
    ensures Attributions(Filter(in_.events, keep), o, in_.windows) == Attributions(in_.events, o, in_.windows)
    ensures forall i: nat :: i < |in_.windows| ==>
              SameWindow(EventSet(in_.events), EventSet(Filter(in_.events, keep)), o, i)
  {
    var ws, kept := in_.windows, Filter(in_.events, keep);
    forall i: nat | i < |ws|
      ensures SameWindow(EventSet(in_.events), EventSet(kept), o, i)
      ensures Attributions(kept, o, ws)[i] == Attributions(in_.events, o, ws)[i]
    {
      CutoffWindow(in_, keep, o, i);
    }
  }

  /**
   * Losing any part of what was logged before the first drain (less the jitter tolerance) leaves
   * the attribution and the recovery time as they were.
   */
  lemma LogCutoff(in_: Input, keep: ConnEvent -> bool)
    requires SafeLog(in_, keep) && Causal(EventSet(in_.events))
    ensures var cut := Outcome(Logged(in_, keep));
      && cut.perNodeAttribution == Outcome(in_).perNodeAttribution
      && cut.recovery == Outcome(in_).recovery
      && cut.affectedNodeWindows == Outcome(in_).affectedNodeWindows
      && cut.distinctNodesAffected == Outcome(in_).distinctNodesAffected
  {
    var o := Attributor(in_.windows, in_.config.jitterTolerance);
    CutoffWindows(in_, keep, o);
    SameGaps(EventSet(in_.events), EventSet(Filter(in_.events, keep)), o, |in_.windows|);
  }

  // Some event that the log kept is of the given sort.
  ghost predicate SomeKept(es: seq<ConnEvent>, keep: ConnEvent -> bool, sort: ConnEvent -> bool) {
    exists e :: e in es && keep(e) && sort(e)
  }

  ghost function Dead(ws: seq<RollWindow>, eps: Duration): ConnEvent -> bool {
    (e: ConnEvent) => Died(e, ws, eps)
  }

  /** The facts that single events decide are decided by the events that were kept. */
  lemma KeptFacts(in_: Input, keep: ConnEvent -> bool)
    ensures var ws, eps, cut := in_.windows, in_.config.jitterTolerance, FactsOf(Logged(in_, keep));
      && (cut.died <==> SomeKept(in_.events, keep, Dead(ws, eps)))
      && (cut.dropped <==> SomeKept(in_.events, keep, DroppedPred(ws, eps)))
      && (cut.newConnFailed <==> SomeKept(in_.events, keep, OfKind(NewConnAttemptFail)))
  {
    FilterKeeps(in_.events, keep);
  }

  /**
   * What a safe log says: early deaths, drops and failed attempts as far as it kept them, and
   * every other fact unchanged; with a window observed it keeps every drop as well.
   */
  lemma LogCutoffFacts(in_: Input, keep: ConnEvent -> bool)
    requires SafeLog(in_, keep) && Causal(EventSet(in_.events))
    ensures var ws, eps := in_.windows, in_.config.jitterTolerance;
      var f, cut := FactsOf(in_), FactsOf(Logged(in_, keep));
      && cut == f.(died := SomeKept(in_.events, keep, Dead(ws, eps)),
                   dropped := SomeKept(in_.events, keep, DroppedPred(ws, eps)),
                   newConnFailed := SomeKept(in_.events, keep, OfKind(NewConnAttemptFail)))
      && (ws != [] ==> cut.dropped == f.dropped)
  {
    var ws, eps := in_.windows, in_.config.jitterTolerance;
    var o := Attributor(ws, eps);
    KeptFacts(in_, keep);
    CutoffWindows(in_, keep, o);
    SameGaps(EventSet(in_.events), EventSet(Filter(in_.events, keep)), o, |ws|);
    forall e | e in in_.events && Dropped(e, ws, eps) && ws != [] ensures keep(e) {
      assert exists w :: w in ws && e.ts >= w.drainingAt - eps;
    }
  }

  // ------------------------------------------------- when a cutoff shows

  predicate OtherErrors(f: Facts) {
    f.prereqMissing || f.noRollout || f.halfOpen
  }

  // The run is an ERROR for early deaths only, and the log kept none of them.
  ghost predicate DeathsLost(in_: Input, keep: ConnEvent -> bool) {
    var f, dead := FactsOf(in_), Dead(in_.windows, in_.config.jitterTolerance);
    !OtherErrors(f) && f.died && !SomeKept(in_.events, keep, dead)
  }

  // The run is a FAIL for failed attempts and drops only, and the log kept none of them.
  ghost predicate FailuresLost(in_: Input, keep: ConnEvent -> bool) {
    var f, drop := FactsOf(in_), DroppedPred(in_.windows, in_.config.jitterTolerance);
    && !OtherErrors(f) && !f.died
    && !f.overlapping && !f.twoWindows && !f.unrecovered && !f.overBound
    && (f.newConnFailed || f.dropped)
    && !SomeKept(in_.events, keep, OfKind(NewConnAttemptFail)) && !SomeKept(in_.events, keep, drop)
  }

  lemma FewerFacts(f: Facts, cut: Facts)
    requires cut == f.(died := cut.died, dropped := cut.dropped, newConnFailed := cut.newConnFailed)
    requires (cut.died ==> f.died) && (cut.dropped ==> f.dropped) && (cut.newConnFailed ==> f.newConnFailed)
    ensures VerdictFor(Lead(cut)) == VerdictFor(Lead(f)) <==>
      && !(!OtherErrors(f) && f.died && !cut.died)
      && !(!OtherErrors(f) && !f.died && !f.overlapping && !f.twoWindows && !f.unrecovered && !f.overBound
           && (f.newConnFailed || f.dropped) && !cut.newConnFailed && !cut.dropped)
  {
  }

  /** A safe log keeps the verdict exactly unless it lost all the events that the verdict rests on. */
  lemma CutoffVerdict(in_: Input, keep: ConnEvent -> bool)
    requires SafeLog(in_, keep) && Causal(EventSet(in_.events))
    ensures Outcome(Logged(in_, keep)).verdict == Outcome(in_).verdict
       <==> !DeathsLost(in_, keep) && !FailuresLost(in_, keep)
  {
    LogCutoffFacts(in_, keep);
    VerdictExact(in_);
    VerdictExact(Logged(in_, keep));
    FewerFacts(FactsOf(in_), FactsOf(Logged(in_, keep)));
  }

  // The leading reason rests on early deaths, drops or failed attempts of which the log kept none.
  ghost predicate LeadLost(in_: Input, keep: ConnEvent -> bool) {
    match Outcome(in_).reason
    case Some(DiedBeforeDrain) => !SomeKept(in_.events, keep, Dead(in_.windows, in_.config.jitterTolerance))
    case Some(DropOnNonUpgradingNode) => !SomeKept(in_.events, keep, DroppedPred(in_.windows, in_.config.jitterTolerance))
    case Some(NewConnFailure) => !SomeKept(in_.events, keep, OfKind(NewConnAttemptFail))
    case _ => false
  }

  // What is left still earns the leading reason.
  predicate Survives(lead: Option<Reason>, cut: Facts) {
    match lead
    case Some(DiedBeforeDrain) => cut.died
    case Some(DropOnNonUpgradingNode) => cut.dropped
    case Some(NewConnFailure) => cut.newConnFailed
    case _ => true
  }

  lemma FewerLeads(f: Facts, cut: Facts)
    requires cut == f.(died := cut.died, dropped := cut.dropped, newConnFailed := cut.newConnFailed)
    requires (cut.died ==> f.died) && (cut.dropped ==> f.dropped) && (cut.newConnFailed ==> f.newConnFailed)
    ensures Lead(cut) == Lead(f) <==> Survives(Lead(f), cut)
  {
  }

  lemma ReasonIsLead(in_: Input)
    ensures Outcome(in_).reason == Lead(FactsOf(in_))
  {
    VerdictExact(in_);
  }

  // A safe log shows no fact that the run did not have.
  lemma SafeFacts(in_: Input, keep: ConnEvent -> bool)
    requires SafeLog(in_, keep) && Causal(EventSet(in_.events))
    ensures var f, cut := FactsOf(in_), FactsOf(Logged(in_, keep));
      && cut == f.(died := cut.died, dropped := cut.dropped, newConnFailed := cut.newConnFailed)
      && (cut.died ==> f.died) && (cut.dropped ==> f.dropped) && (cut.newConnFailed ==> f.newConnFailed)
  {
    LogCutoffFacts(in_, keep);
  }

  /** ... and it keeps the reason exactly unless it lost all the events that the reason rests on. */
  lemma CutoffReason(in_: Input, keep: ConnEvent -> bool)
    requires SafeLog(in_, keep) && Causal(EventSet(in_.events))
    ensures Outcome(Logged(in_, keep)).reason == Outcome(in_).reason <==> !LeadLost(in_, keep)
  {
    SafeFacts(in_, keep);
    KeptFacts(in_, keep);
    ReasonIsLead(in_);
    ReasonIsLead(Logged(in_, keep));
    FewerLeads(FactsOf(in_), FactsOf(Logged(in_, keep)));
  }

  // A run in order but for one event.
  ghost function QuietRun(cfg: Config, trigger: TriggerInfo, w: RollWindow, e: ConnEvent): Input {
    Input(trigger, [e], [w], cfg)
  }

  /** Both losses occur: an early death, or an early failed attempt, that the log did not keep. */
  lemma CutoffCanShow(cfg: Config, trigger: TriggerInfo, w: RollWindow, e: ConnEvent)
    requires cfg.triggerPrereqError == "" && w.readyAt.Some?
    requires IsClose(e) || e.kind == NewConnAttemptFail
    requires e.ts < w.drainingAt - cfg.jitterTolerance
    ensures var in_ := QuietRun(cfg, trigger, w, e);
      var keep := (x: ConnEvent) => x.ts > e.ts;
      && SafeLog(in_, keep) && Causal(EventSet(in_.events))
      && Outcome(in_).verdict == (if IsClose(e) then ERROR else FAIL)
      && Outcome(Logged(in_, keep)).verdict == PASS
  {
    var in_ := QuietRun(cfg, trigger, w, e);
    var keep := (x: ConnEvent) => x.ts > e.ts;
    OneEvent(in_, e);
    OneEventSafe(in_, e, keep);
    FilterAppend([], e, keep);
    assert [e] == [] + [e];
    NoEvent(Logged(in_, keep), w);
  }

  lemma OneEventSafe(in_: Input, e: ConnEvent, keep: ConnEvent -> bool)
    requires in_.events == [e] && Early(e.ts, in_.windows, in_.config.jitterTolerance)
    ensures SafeLog(in_, keep) && Causal(EventSet(in_.events))
  {
    assert EventSet(in_.events) == {e};
  }

  lemma NoEvent(in_: Input, w: RollWindow)
    requires in_.events == [] && in_.windows == [w] && w.readyAt.Some? && in_.config.triggerPrereqError == ""
    ensures Outcome(in_).verdict == PASS
  {
    EmptyStream(in_);
  }

  lemma OneEvent(in_: Input, e: ConnEvent)
    requires in_.events == [e] && Early(e.ts, in_.windows, in_.config.jitterTolerance)
    requires in_.config.triggerPrereqError == "" && forall w :: w in in_.windows ==> w.readyAt.Some?
    requires IsClose(e) || e.kind == NewConnAttemptFail
    ensures Outcome(in_).verdict == if IsClose(e) then ERROR else FAIL
  {
    VerdictExact(in_);
    OneEventFacts(in_, e);
    OneEventLead(FactsOf(in_), IsClose(e));
  }

  lemma OneEventFacts(in_: Input, e: ConnEvent)
    requires in_.events == [e] && Early(e.ts, in_.windows, in_.config.jitterTolerance)
    requires in_.config.triggerPrereqError == "" && forall w :: w in in_.windows ==> w.readyAt.Some?
    ensures var f := FactsOf(in_);
      !OtherErrors(f) && (f.died <==> IsClose(e)) && (e.kind == NewConnAttemptFail ==> f.newConnFailed)
  {
    assert EventSet(in_.events) == {e};
  }

  lemma OneEventLead(f: Facts, died: bool)
    requires !OtherErrors(f) && f.died == died && (!died ==> f.newConnFailed)
    ensures VerdictFor(Lead(f)) == if died then ERROR else FAIL
  {
  }
}
