/**
 * The verdict as a ladder of conditions on the raw input: which reasons an input earns, and
 * that Analyze reports exactly those and names the first of them.
 */
module Diagnosis {
  import opened Wrappers
  import opened Model
  import opened Collections
  import opened VerdictSpec

  // The order in which reasons take precedence: ERROR class first.
  function Rank(r: Reason): nat {
    match r
    case TriggerPrereqMissing => 0
    case NoRolloutObserved => 1
    case HalfOpenWindow => 2
    case DiedBeforeDrain => 3
    case OverlappingNodeWindows => 4
    case DropOnNonUpgradingNode => 5
    case SameConnTwoWindows => 6
    case PoolNotRecovered => 7
    case RecoveryOverBound => 8
    case NewConnFailure => 9
  }

  ghost predicate OverBound(E: set<ConnEvent>, o: ConnEvent -> int, n: nat, bound: Duration) {
    exists i, c :: 0 <= i < n && c in ResetConns(E, o, i)
                   && Gap(E, o, i, c).Some? && Gap(E, o, i, c).value > bound
  }

  // The facts about an input that decide its verdict.
  datatype Facts = Facts(
    prereqMissing: bool, noRollout: bool, halfOpen: bool, died: bool, overlapping: bool, dropped: bool,
    twoWindows: bool, unrecovered: bool, overBound: bool, newConnFailed: bool)

  // Read off the events, the windows and the configuration.
  ghost function FactsOf(in_: Input): Facts {
    var E, ws, cfg := EventSet(in_.events), in_.windows, in_.config;
    var eps := cfg.jitterTolerance;
    var o := Attributor(ws, eps);
    Facts(
      cfg.triggerPrereqError != "",
      cfg.triggerFired && ws == [],
      exists w :: w in ws && w.readyAt.None?,
      exists e :: e in E && Died(e, ws, eps),
      exists a, b :: a in ws && b in ws && CrossNodeOverlap(a, b, eps),
      exists e :: e in E && Dropped(e, ws, eps),
      exists c :: InTwoWindows(E, o, |ws|, c),
      AnyUnrecovered(E, o, |ws|),
      OverBound(E, o, |ws|, cfg.recoveryBoundSeconds * SECOND),
      exists e :: e in E && e.kind == NewConnAttemptFail)
  }

  predicate Follows(f: Facts, r: Reason) {
    match r
    case TriggerPrereqMissing => f.prereqMissing
    case NoRolloutObserved => f.noRollout
    case HalfOpenWindow => f.halfOpen
    case DiedBeforeDrain => f.died
    case OverlappingNodeWindows => f.overlapping
    case DropOnNonUpgradingNode => f.dropped
    case SameConnTwoWindows => f.twoWindows
    case PoolNotRecovered => f.unrecovered
    case RecoveryOverBound => f.overBound && !f.unrecovered
    case NewConnFailure => f.newConnFailed
  }

  // The input earns reason r.
  ghost predicate Violates(in_: Input, r: Reason) {
    Follows(FactsOf(in_), r)
  }

  ghost predicate Reported(found: seq<Anomaly>, r: Reason) {
    exists a :: a in found && a.reason == r
  }

  // ---------------------------------------------------- summaries of anomalies

  // All a verdict reads off an anomaly list: the first of each class, and which reasons occur.
  datatype Summary = Summary(error: Option<Reason>, fail: Option<Reason>, reasons: set<Reason>)

  function First(found: seq<Anomaly>, error: bool): Option<Reason> {
    var mine := OfClass(found, error);
    if mine == [] then None else Some(mine[0].reason)
  }

  function Summarise(found: seq<Anomaly>): Summary {
    Summary(First(found, true), First(found, false), set a | a in found :: a.reason)
  }

  function OrElse(a: Option<Reason>, b: Option<Reason>): Option<Reason> {
    if a.Some? then a else b
  }

  function Merge(a: Summary, b: Summary): Summary {
    Summary(OrElse(a.error, b.error), OrElse(a.fail, b.fail), a.reasons + b.reasons)
  }

  function Sole(r: Reason, present: bool): Summary {
    Summary(if present && r.IsError() then Some(r) else None,
            if present && !r.IsError() then Some(r) else None,
            if present then {r} else {})
  }

  lemma {:induction false} OfClassConcat(a: seq<Anomaly>, b: seq<Anomaly>, error: bool)
    ensures OfClass(a + b, error) == OfClass(a, error) + OfClass(b, error)
  {
    if b == [] {
      assert a + b == a;
    } else {
      assert (a + b)[..|a + b| - 1] == a + b[..|b| - 1];
      OfClassConcat(a, b[..|b| - 1], error);
    }
  }

  lemma {:induction false} OfClassElements(a: seq<Anomaly>, error: bool, x: Anomaly)
    ensures x in OfClass(a, error) <==> x in a && x.reason.IsError() == error
  {
    if a != [] {
      var n := |a| - 1;
      assert a == a[..n] + [a[n]];
      OfClassElements(a[..n], error, x);
    }
  }

  lemma SummariseConcat(a: seq<Anomaly>, b: seq<Anomaly>)
    ensures Summarise(a + b) == Merge(Summarise(a), Summarise(b))
  {
    OfClassConcat(a, b, true);
    OfClassConcat(a, b, false);
    assert (set x | x in a + b :: x.reason) == (set x | x in a :: x.reason) + (set x | x in b :: x.reason);
  }

  // In a block whose anomalies of r's class all name r, the first of that class is r.
  lemma FirstOf(block: seq<Anomaly>, r: Reason)
    requires forall a :: a in block && a.reason.IsError() == r.IsError() ==> a.reason == r
    ensures First(block, r.IsError()) == if exists a :: a in block && a.reason == r then Some(r) else None
  {
    var mine := OfClass(block, r.IsError());
    if mine != [] {
      OfClassElements(block, r.IsError(), mine[0]);
    }
    if a :| a in block && a.reason == r {
      OfClassElements(block, r.IsError(), a);
    }
  }

  ghost predicate Uniform(block: seq<Anomaly>, r: Reason) {
    forall a :: a in block ==> a.reason == r
  }

  lemma UniformConcat(a: seq<Anomaly>, b: seq<Anomaly>, r: Reason)
    requires Uniform(a, r) && Uniform(b, r)
    ensures Uniform(a + b, r)
    ensures a + b != [] <==> a != [] || b != []
  {
  }

  lemma SummariseUniform(block: seq<Anomaly>, r: Reason)
    requires Uniform(block, r)
    ensures Summarise(block) == Sole(r, block != [])
  {
    FirstOf(block, r);
    var others := OfClass(block, !r.IsError());
    if others != [] {
      OfClassElements(block, !r.IsError(), others[0]);
    }
    if block != [] {
      assert block[0] in block;
    }
  }

  // -------------------------------------------------------------- the blocks

  ghost predicate AnyHalfOpen(ws: seq<RollWindow>) {
    exists w :: w in ws && w.readyAt.None?
  }

  lemma AnyHalfOpenStep(ws: seq<RollWindow>)
    requires ws != []
    ensures AnyHalfOpen(ws) <==> AnyHalfOpen(ws[..|ws| - 1]) || ws[|ws| - 1].readyAt.None?
  {
    assert ws == ws[..|ws| - 1] + [ws[|ws| - 1]];
  }

  lemma {:induction false} HalfOpenExact(ws: seq<RollWindow>)
    ensures Uniform(HalfOpenAnomalies(ws), HalfOpenWindow)
    ensures HalfOpenAnomalies(ws) != [] <==> AnyHalfOpen(ws)
  {
    if ws != [] {
      var n := |ws| - 1;
      HalfOpenExact(ws[..n]);
      AnyHalfOpenStep(ws);
      UniformConcat(HalfOpenAnomalies(ws[..n]), HalfOpenOf(ws[n]), HalfOpenWindow);
    }
  }

  ghost predicate RowOverlapping(ws: seq<RollWindow>, eps: Duration, i: nat, n: nat)
    requires i < n <= |ws|
  {
    exists j :: i < j < n && CrossNodeOverlap(ws[i], ws[j], eps)
  }

  lemma {:induction false} RowUniform(ws: seq<RollWindow>, eps: Duration, i: nat, n: nat)
    requires i < n <= |ws|
    ensures Uniform(RowOverlaps(ws, eps, i, n), OverlappingNodeWindows)
    decreases n
  {
    if n > i + 1 {
      RowUniform(ws, eps, i, n - 1);
    }
  }

  lemma {:induction false} RowExact(ws: seq<RollWindow>, eps: Duration, i: nat, n: nat)
    requires i < n <= |ws|
    ensures RowOverlaps(ws, eps, i, n) != [] <==> RowOverlapping(ws, eps, i, n)
    decreases n
  {
    if n > i + 1 {
      RowExact(ws, eps, i, n - 1);
      assert RowOverlapping(ws, eps, i, n)
        <==> RowOverlapping(ws, eps, i, n - 1) || CrossNodeOverlap(ws[i], ws[n - 1], eps);
    }
  }

  ghost predicate AnyRow(ws: seq<RollWindow>, eps: Duration, rows: nat)
    requires rows <= |ws|
  {
    exists i: nat :: i < rows && RowOverlapping(ws, eps, i, |ws|)
  }

  lemma AnyRowStep(ws: seq<RollWindow>, eps: Duration, rows: nat)
    requires 0 < rows <= |ws|
    ensures AnyRow(ws, eps, rows) <==> AnyRow(ws, eps, rows - 1) || RowOverlapping(ws, eps, rows - 1, |ws|)
  {
    if i: nat :| i < rows && RowOverlapping(ws, eps, i, |ws|) {
      assert i < rows - 1 || i == rows - 1;
    }
  }

  lemma {:induction false} RowsUniform(ws: seq<RollWindow>, eps: Duration, rows: nat)
    requires rows <= |ws|
    ensures Uniform(OverlapAnomalies(ws, eps, rows), OverlappingNodeWindows)
  {
    if rows > 0 {
      var earlier, row := OverlapAnomalies(ws, eps, rows - 1), RowOverlaps(ws, eps, rows - 1, |ws|);
      assert Uniform(earlier, OverlappingNodeWindows) by { RowsUniform(ws, eps, rows - 1); }
      assert Uniform(row, OverlappingNodeWindows) by { RowUniform(ws, eps, rows - 1, |ws|); }
      UniformConcat(earlier, row, OverlappingNodeWindows);
      assert OverlapAnomalies(ws, eps, rows) == earlier + row;
    }
  }

  lemma {:induction false} RowsExact(ws: seq<RollWindow>, eps: Duration, rows: nat)
    requires rows <= |ws|
    ensures OverlapAnomalies(ws, eps, rows) != [] <==> AnyRow(ws, eps, rows)
  {
    if rows > 0 {
      var earlier, row := OverlapAnomalies(ws, eps, rows - 1), RowOverlaps(ws, eps, rows - 1, |ws|);
      assert earlier != [] <==> AnyRow(ws, eps, rows - 1) by { RowsExact(ws, eps, rows - 1); }
      assert row != [] <==> RowOverlapping(ws, eps, rows - 1, |ws|) by { RowExact(ws, eps, rows - 1, |ws|); }
      AnyRowStep(ws, eps, rows);
      assert OverlapAnomalies(ws, eps, rows) == earlier + row;
    }
  }

  lemma OverlapExact(ws: seq<RollWindow>, eps: Duration)
    ensures Uniform(OverlapAnomalies(ws, eps, |ws|), OverlappingNodeWindows)
    ensures OverlapAnomalies(ws, eps, |ws|) != []
       <==> exists a, b :: a in ws && b in ws && CrossNodeOverlap(a, b, eps)
  {
    RowsUniform(ws, eps, |ws|);
    RowsExact(ws, eps, |ws|);
    if i: nat :| i < |ws| && RowOverlapping(ws, eps, i, |ws|) {
      var j :| i < j < |ws| && CrossNodeOverlap(ws[i], ws[j], eps);
      assert ws[i] in ws && ws[j] in ws;
    }
    if a, b :| a in ws && b in ws && CrossNodeOverlap(a, b, eps) {
      var i :| 0 <= i < |ws| && ws[i] == a;
      var j :| 0 <= j < |ws| && ws[j] == b;
      assert CrossNodeOverlap(ws[i], ws[j], eps) && CrossNodeOverlap(ws[j], ws[i], eps);
      assert i < j ==> RowOverlapping(ws, eps, i, |ws|);
      assert j < i ==> RowOverlapping(ws, eps, j, |ws|);
    }
  }

  ghost predicate InSomeRow(ws: seq<RollWindow>, eps: Duration, rows: nat, a: Anomaly)
    requires rows <= |ws|
  {
    exists i: nat :: i < rows && a in RowOverlaps(ws, eps, i, |ws|)
  }

  lemma InSomeRowStep(ws: seq<RollWindow>, eps: Duration, rows: nat, a: Anomaly)
    requires 0 < rows <= |ws|
    ensures InSomeRow(ws, eps, rows, a) <==> InSomeRow(ws, eps, rows - 1, a) || a in RowOverlaps(ws, eps, rows - 1, |ws|)
  {
    if i: nat :| i < rows && a in RowOverlaps(ws, eps, i, |ws|) {
      assert i < rows - 1 || i == rows - 1;
    }
  }

  // The entries of the scan are those of its rows.
  lemma {:induction false} RowsHold(ws: seq<RollWindow>, eps: Duration, rows: nat, a: Anomaly)
    requires rows <= |ws|
    ensures a in OverlapAnomalies(ws, eps, rows) <==> InSomeRow(ws, eps, rows, a)
  {
    if rows > 0 {
      RowsHold(ws, eps, rows - 1, a);
      InSomeRowStep(ws, eps, rows, a);
      var earlier, row := OverlapAnomalies(ws, eps, rows - 1), RowOverlaps(ws, eps, rows - 1, |ws|);
      assert a in earlier + row <==> a in earlier || a in row;
    }
  }

  lemma {:induction false} EventEntries(es: seq<ConnEvent>, ws: seq<RollWindow>, eps: Duration, a: Anomaly)
    ensures a in EventAnomalies(es, ws, eps) <==>
      exists e :: e in es && ((Died(e, ws, eps) && a == At(DiedBeforeDrain, e))
                              || (Dropped(e, ws, eps) && a == At(DropOnNonUpgradingNode, e)))
  {
    if es != [] {
      EventEntries(es[..|es| - 1], ws, eps, a);
      assert es == es[..|es| - 1] + [es[|es| - 1]];
    }
  }

  lemma EventsExact(es: seq<ConnEvent>, ws: seq<RollWindow>, eps: Duration)
    ensures forall a :: a in EventAnomalies(es, ws, eps) ==>
              a.reason == DiedBeforeDrain || a.reason == DropOnNonUpgradingNode
    ensures (exists a :: a in EventAnomalies(es, ws, eps) && a.reason == DiedBeforeDrain)
       <==> exists e :: e in EventSet(es) && Died(e, ws, eps)
    ensures (exists a :: a in EventAnomalies(es, ws, eps) && a.reason == DropOnNonUpgradingNode)
       <==> exists e :: e in EventSet(es) && Dropped(e, ws, eps)
  {
    forall a | a in EventAnomalies(es, ws, eps)
      ensures exists e :: e in es && ((Died(e, ws, eps) && a == At(DiedBeforeDrain, e))
                                      || (Dropped(e, ws, eps) && a == At(DropOnNonUpgradingNode, e)))
    {
      EventEntries(es, ws, eps, a);
    }
    if e :| e in es && Died(e, ws, eps) {
      EventEntries(es, ws, eps, At(DiedBeforeDrain, e));
    }
    if e :| e in es && Dropped(e, ws, eps) {
      EventEntries(es, ws, eps, At(DropOnNonUpgradingNode, e));
    }
  }

  lemma SummariseEvents(es: seq<ConnEvent>, ws: seq<RollWindow>, eps: Duration, died: bool, dropped: bool)
    requires died <==> exists e :: e in EventSet(es) && Died(e, ws, eps)
    requires dropped <==> exists e :: e in EventSet(es) && Dropped(e, ws, eps)
    ensures Summarise(EventAnomalies(es, ws, eps))
         == Merge(Sole(DiedBeforeDrain, died), Sole(DropOnNonUpgradingNode, dropped))
  {
    EventsExact(es, ws, eps);
    var block := EventAnomalies(es, ws, eps);
    FirstOf(block, DiedBeforeDrain);
    FirstOf(block, DropOnNonUpgradingNode);
    var reasons := set a | a in block :: a.reason;
    assert DiedBeforeDrain in reasons <==> died;
    assert DropOnNonUpgradingNode in reasons <==> dropped;
  }

  lemma SameConnExact(E: set<ConnEvent>, o: ConnEvent -> int, n: nat)
    ensures var found := SameConnAnomalies(SortedSeq(DoubleConns(E, o, n)));
      && Uniform(found, SameConnTwoWindows)
      && (found != [] <==> exists c :: InTwoWindows(E, o, n, c))
  {
    var conns := SortedSeq(DoubleConns(E, o, n));
    if c :| InTwoWindows(E, o, n, c) {
      assert c in DoubleConns(E, o, n);
      assert c in conns;
    }
    if conns != [] {
      assert conns[0] in DoubleConns(E, o, n);
    }
  }

  lemma {:induction false} AllGapsExact(E: set<ConnEvent>, o: ConnEvent -> int, n: nat, x: Duration)
    ensures x in AllGaps(E, o, n) <==> exists i :: 0 <= i < n && x in WindowGaps(E, o, i)
  {
    if n > 0 {
      AllGapsExact(E, o, n - 1, x);
    }
  }

  lemma RecoveryExact(E: set<ConnEvent>, o: ConnEvent -> int, n: nat, cfg: Config)
    ensures RecoveryAnomalies(E, o, n, cfg)
         == if AnyUnrecovered(E, o, n) then [Plain(PoolNotRecovered)]
            else if OverBound(E, o, n, cfg.recoveryBoundSeconds * SECOND) then [Plain(RecoveryOverBound)]
            else []
  {
    var gaps, bound := AllGaps(E, o, n), cfg.recoveryBoundSeconds * SECOND;
    if OverBound(E, o, n, bound) {
      var i, c :| 0 <= i < n && c in ResetConns(E, o, i)
                  && Gap(E, o, i, c).Some? && Gap(E, o, i, c).value > bound;
      var x := Gap(E, o, i, c).value;
      assert x in WindowGaps(E, o, i);
      AllGapsExact(E, o, n, x);
    }
    if gaps != {} && Max(gaps) > bound {
      AllGapsExact(E, o, n, Max(gaps));
      var i :| 0 <= i < n && Max(gaps) in WindowGaps(E, o, i);
      assert OverBound(E, o, n, bound);
    }
  }

  lemma NewConnExact(es: seq<ConnEvent>)
    ensures NewConnAnomalies(es)
         == if exists e :: e in EventSet(es) && e.kind == NewConnAttemptFail then [Plain(NewConnFailure)] else []
  {
    CountZero(es, OfKind(NewConnAttemptFail));
  }

  // ---------------------------------------------------------- main theorems

  // The blocks of the anomaly list in the order Analyze appends them.
  function WindowRungs(f: Facts): Summary {
    Merge(Merge(Merge(
      Sole(TriggerPrereqMissing, Follows(f, TriggerPrereqMissing)),
      Sole(NoRolloutObserved, Follows(f, NoRolloutObserved))),
      Sole(HalfOpenWindow, Follows(f, HalfOpenWindow))),
      Sole(OverlappingNodeWindows, Follows(f, OverlappingNodeWindows)))
  }

  function EventRungs(f: Facts): Summary {
    Merge(Sole(DiedBeforeDrain, Follows(f, DiedBeforeDrain)),
          Sole(DropOnNonUpgradingNode, Follows(f, DropOnNonUpgradingNode)))
  }

  function RecoveryRungs(f: Facts): Summary {
    Merge(Merge(
      Sole(SameConnTwoWindows, Follows(f, SameConnTwoWindows)),
      Merge(Sole(PoolNotRecovered, Follows(f, PoolNotRecovered)),
            Sole(RecoveryOverBound, Follows(f, RecoveryOverBound)))),
      Sole(NewConnFailure, Follows(f, NewConnFailure)))
  }

  function Ladder(f: Facts): Summary {
    Merge(Merge(WindowRungs(f), EventRungs(f)), RecoveryRungs(f))
  }

  function Lead(f: Facts): Option<Reason> {
    if Follows(f, TriggerPrereqMissing) then Some(TriggerPrereqMissing)
    else if Follows(f, NoRolloutObserved) then Some(NoRolloutObserved)
    else if Follows(f, HalfOpenWindow) then Some(HalfOpenWindow)
    else if Follows(f, DiedBeforeDrain) then Some(DiedBeforeDrain)
    else if Follows(f, OverlappingNodeWindows) then Some(OverlappingNodeWindows)
    else if Follows(f, DropOnNonUpgradingNode) then Some(DropOnNonUpgradingNode)
    else if Follows(f, SameConnTwoWindows) then Some(SameConnTwoWindows)
    else if Follows(f, PoolNotRecovered) then Some(PoolNotRecovered)
    else if Follows(f, RecoveryOverBound) then Some(RecoveryOverBound)
    else if Follows(f, NewConnFailure) then Some(NewConnFailure)
    else None
  }

  lemma LadderLead(f: Facts)
    ensures OrElse(Ladder(f).error, Ladder(f).fail) == Lead(f)
    ensures Ladder(f).error.Some? <==> Lead(f).Some? && Lead(f).value.IsError()
  {
  }

  lemma WindowReasons(f: Facts, r: Reason)
    ensures r in WindowRungs(f).reasons
      <==> || (r.TriggerPrereqMissing? && f.prereqMissing) || (r.NoRolloutObserved? && f.noRollout)
           || (r.HalfOpenWindow? && f.halfOpen) || (r.OverlappingNodeWindows? && f.overlapping)
  {
  }

  lemma EventReasons(f: Facts, r: Reason)
    ensures r in EventRungs(f).reasons
      <==> (r.DiedBeforeDrain? && f.died) || (r.DropOnNonUpgradingNode? && f.dropped)
  {
  }

  lemma RecoveryReasons(f: Facts, r: Reason)
    ensures r in RecoveryRungs(f).reasons
      <==> || (r.SameConnTwoWindows? && f.twoWindows) || (r.PoolNotRecovered? && f.unrecovered)
           || (r.RecoveryOverBound? && f.overBound && !f.unrecovered) || (r.NewConnFailure? && f.newConnFailed)
  {
  }

  lemma LadderReasons(f: Facts, r: Reason)
    ensures r in Ladder(f).reasons <==> Follows(f, r)
  {
    WindowReasons(f, r);
    EventReasons(f, r);
    RecoveryReasons(f, r);
  }

  lemma LeadIsLeast(f: Facts, r: Reason)
    ensures Follows(f, r) ==> Lead(f).Some? && Rank(Lead(f).value) <= Rank(r)
    ensures Lead(f).Some? ==> Follows(f, Lead(f).value)
  {
  }

  lemma RankInjective(a: Reason, b: Reason)
    requires Rank(a) == Rank(b)
    ensures a == b
  {
  }

  lemma SummariseTriggerPart(in_: Input)
    ensures Summarise(PrereqAnomalies(in_.config)) == Sole(TriggerPrereqMissing, Violates(in_, TriggerPrereqMissing))
    ensures Summarise(NoRolloutAnomalies(in_.config, in_.windows)) == Sole(NoRolloutObserved, Violates(in_, NoRolloutObserved))
  {
    SummariseUniform(PrereqAnomalies(in_.config), TriggerPrereqMissing);
    SummariseUniform(NoRolloutAnomalies(in_.config, in_.windows), NoRolloutObserved);
  }

  lemma SummariseHalfOpenPart(in_: Input)
    ensures Summarise(HalfOpenAnomalies(in_.windows)) == Sole(HalfOpenWindow, Violates(in_, HalfOpenWindow))
  {
    HalfOpenExact(in_.windows);
    SummariseUniform(HalfOpenAnomalies(in_.windows), HalfOpenWindow);
  }

  lemma SummariseOverlapPart(in_: Input)
    ensures Summarise(OverlapAnomalies(in_.windows, in_.config.jitterTolerance, |in_.windows|))
         == Sole(OverlappingNodeWindows, Violates(in_, OverlappingNodeWindows))
  {
    OverlapExact(in_.windows, in_.config.jitterTolerance);
    SummariseUniform(OverlapAnomalies(in_.windows, in_.config.jitterTolerance, |in_.windows|), OverlappingNodeWindows);
  }

  lemma SummariseFour(p: seq<Anomaly>, q: seq<Anomaly>, r: seq<Anomaly>, s: seq<Anomaly>)
    ensures Summarise(p + q + r + s)
         == Merge(Merge(Merge(Summarise(p), Summarise(q)), Summarise(r)), Summarise(s))
  {
    SummariseConcat(p, q);
    SummariseConcat(p + q, r);
    SummariseConcat(p + q + r, s);
  }

  lemma SummariseWindowPart(in_: Input)
    ensures Summarise(WindowAnomalies(in_)) == WindowRungs(FactsOf(in_))
  {
    var ws, cfg := in_.windows, in_.config;
    SummariseTriggerPart(in_);
    SummariseHalfOpenPart(in_);
    SummariseOverlapPart(in_);
    SummariseFour(PrereqAnomalies(cfg), NoRolloutAnomalies(cfg, ws), HalfOpenAnomalies(ws),
                  OverlapAnomalies(ws, cfg.jitterTolerance, |ws|));
  }

  lemma SummariseEventPart(in_: Input)
    ensures Summarise(EventAnomalies(in_.events, in_.windows, in_.config.jitterTolerance))
         == EventRungs(FactsOf(in_))
  {
    SummariseEvents(in_.events, in_.windows, in_.config.jitterTolerance,
                    Violates(in_, DiedBeforeDrain), Violates(in_, DropOnNonUpgradingNode));
  }

  lemma SummariseSameConnPart(in_: Input, E: set<ConnEvent>, o: ConnEvent -> int)
    requires E == EventSet(in_.events) && o == Attributor(in_.windows, in_.config.jitterTolerance)
    ensures Summarise(SameConnAnomalies(SortedSeq(DoubleConns(E, o, |in_.windows|))))
         == Sole(SameConnTwoWindows, Violates(in_, SameConnTwoWindows))
  {
    SameConnExact(E, o, |in_.windows|);
    SummariseUniform(SameConnAnomalies(SortedSeq(DoubleConns(E, o, |in_.windows|))), SameConnTwoWindows);
  }

  lemma SummariseRecoveryPart(in_: Input, E: set<ConnEvent>, o: ConnEvent -> int)
    requires E == EventSet(in_.events) && o == Attributor(in_.windows, in_.config.jitterTolerance)
    ensures Summarise(RecoveryAnomalies(E, o, |in_.windows|, in_.config))
         == Merge(Sole(PoolNotRecovered, Violates(in_, PoolNotRecovered)),
                  Sole(RecoveryOverBound, Violates(in_, RecoveryOverBound)))
  {
    RecoveryExact(E, o, |in_.windows|, in_.config);
    SummariseUniform(RecoveryAnomalies(E, o, |in_.windows|, in_.config),
                     if AnyUnrecovered(E, o, |in_.windows|) then PoolNotRecovered else RecoveryOverBound);
  }

  lemma SummariseNewConnPart(in_: Input)
    ensures Summarise(NewConnAnomalies(in_.events)) == Sole(NewConnFailure, Violates(in_, NewConnFailure))
  {
    NewConnExact(in_.events);
    SummariseUniform(NewConnAnomalies(in_.events), NewConnFailure);
  }

  lemma SummariseFive(p: seq<Anomaly>, q: seq<Anomaly>, r: seq<Anomaly>, s: seq<Anomaly>, t: seq<Anomaly>)
    ensures Summarise(p + q + r + s + t)
         == Merge(Merge(Summarise(p), Summarise(q)), Merge(Merge(Summarise(r), Summarise(s)), Summarise(t)))
  {
    assert p + q + r + s + t == p + q + (r + s + t);
    SummariseConcat(p, q);
    SummariseConcat(r, s);
    SummariseConcat(r + s, t);
    SummariseConcat(p + q, r + s + t);
  }

  lemma AnomaliesExact(in_: Input)
    ensures Summarise(Anomalies(in_)) == Ladder(FactsOf(in_))
  {
    var es, ws, cfg := in_.events, in_.windows, in_.config;
    var E, o := EventSet(es), Attributor(ws, cfg.jitterTolerance);
    SummariseWindowPart(in_);
    SummariseEventPart(in_);
    SummariseSameConnPart(in_, E, o);
    SummariseRecoveryPart(in_, E, o);
    SummariseNewConnPart(in_);
    SummariseFive(WindowAnomalies(in_), EventAnomalies(es, ws, cfg.jitterTolerance),
                  SameConnAnomalies(SortedSeq(DoubleConns(E, o, |ws|))),
                  RecoveryAnomalies(E, o, |ws|, cfg), NewConnAnomalies(es));
  }

  lemma ListLead(found: seq<Anomaly>, s: Summary)
    requires Summarise(found) == s
    ensures ReasonOf(OfClass(found, true), OfClass(found, false)) == OrElse(s.error, s.fail)
    ensures VerdictOf(OfClass(found, true), OfClass(found, false))
         == if s.error.Some? then ERROR else if s.fail.Some? then FAIL else PASS
    ensures found == [] <==> OrElse(s.error, s.fail).None?
  {
    if found != [] {
      OfClassElements(found, found[0].reason.IsError(), found[0]);
    }
  }

  // A list whose summary is the ladder of f leads with f's lead ...
  lemma SummaryLead(found: seq<Anomaly>, f: Facts)
    requires Summarise(found) == Ladder(f)
    ensures ReasonOf(OfClass(found, true), OfClass(found, false)) == Lead(f)
    ensures VerdictOf(OfClass(found, true), OfClass(found, false)) == VerdictFor(Lead(f))
    ensures found == [] <==> Lead(f).None?
  {
    LadderLead(f);
    ListLead(found, Ladder(f));
  }

  // ... and names exactly the reasons that follow from f.
  lemma SummaryReports(found: seq<Anomaly>, f: Facts)
    requires Summarise(found) == Ladder(f)
    ensures forall r :: Reported(found, r) <==> Follows(f, r)
  {
    forall r ensures Reported(found, r) <==> Follows(f, r) {
      LadderReasons(f, r);
      ReportedIn(found, r);
    }
  }

  lemma ReportedIn(found: seq<Anomaly>, r: Reason)
    ensures Reported(found, r) <==> r in Summarise(found).reasons
  {
  }

  function VerdictFor(lead: Option<Reason>): Verdict {
    if lead.None? then PASS else if lead.value.IsError() then ERROR else FAIL
  }

  /** The outcome of a run, for every input: what it reports, what it leads with, what it says. */
  lemma VerdictExact(in_: Input)
    ensures forall r :: Reported(Outcome(in_).anomalies, r) <==> Violates(in_, r)
    ensures Outcome(in_).reason == Lead(FactsOf(in_))
    ensures Outcome(in_).verdict == VerdictFor(Lead(FactsOf(in_)))
    ensures Outcome(in_).anomalies == [] <==> Outcome(in_).verdict == PASS
  {
    AnomaliesExact(in_);
    SummaryLead(Anomalies(in_), FactsOf(in_));
    SummaryReports(Anomalies(in_), FactsOf(in_));
  }

  /** The lead is the earned reason of highest precedence; without any earned reason the run passes. */
  lemma LeadLaw(f: Facts)
    ensures forall r :: Lead(f) == Some(r) <==> Follows(f, r) && forall r' :: Follows(f, r') ==> Rank(r) <= Rank(r')
    ensures VerdictFor(Lead(f)) == ERROR <==> exists r: Reason :: r.IsError() && Follows(f, r)
    ensures VerdictFor(Lead(f)) == PASS <==> forall r :: !Follows(f, r)
  {
    forall r ensures Follows(f, r) ==> Lead(f).Some? && Rank(Lead(f).value) <= Rank(r) { LeadIsLeast(f, r); }
    LeadIsLeast(f, NewConnFailure);
    forall r ensures Lead(f) == Some(r) <==> Follows(f, r) && forall r' :: Follows(f, r') ==> Rank(r) <= Rank(r') {
      if Follows(f, r) && forall r' :: Follows(f, r') ==> Rank(r) <= Rank(r') {
        RankInjective(Lead(f).value, r);
      }
    }
  }

  /**
   * PASS exactly when no reason is earned, ERROR exactly when an ERROR-class one is; the reason
   * given is the earned one of highest precedence.
   */
  lemma VerdictConditions(in_: Input)
    ensures Outcome(in_).verdict == PASS <==> forall r :: !Violates(in_, r)
    ensures Outcome(in_).verdict == ERROR <==> exists r: Reason :: r.IsError() && Violates(in_, r)
    ensures forall r :: Outcome(in_).reason == Some(r) <==>
              Violates(in_, r) && forall r' :: Violates(in_, r') ==> Rank(r) <= Rank(r')
  {
    var f := FactsOf(in_);
    assert forall r :: Violates(in_, r) <==> Follows(f, r);
    VerdictExact(in_);
    LeadLaw(f);
  }

  /** A run that collected no event passes whenever its windows and its trigger are in order. */
  lemma EmptyStream(in_: Input)
    requires in_.events == []
    ensures Outcome(in_).verdict == PASS <==>
      && in_.config.triggerPrereqError == ""
      && (in_.config.triggerFired ==> in_.windows != [])
      && (forall w :: w in in_.windows ==> w.readyAt.Some?)
      && forall a, b :: a in in_.windows && b in in_.windows ==> !CrossNodeOverlap(a, b, in_.config.jitterTolerance)
  {
    var f := FactsOf(in_);
    VerdictExact(in_);
    LeadLaw(f);
    assert !f.died && !f.dropped && !f.twoWindows && !f.unrecovered && !f.overBound && !f.newConnFailed;
    QuietFacts(f);
  }

  lemma QuietFacts(f: Facts)
    requires !f.died && !f.dropped && !f.twoWindows && !f.unrecovered && !f.overBound && !f.newConnFailed
    ensures (forall r :: !Follows(f, r))
       <==> !f.prereqMissing && !f.noRollout && !f.halfOpen && !f.overlapping
  {
    assert Follows(f, TriggerPrereqMissing) == f.prereqMissing && Follows(f, NoRolloutObserved) == f.noRollout
        && Follows(f, HalfOpenWindow) == f.halfOpen && Follows(f, OverlappingNodeWindows) == f.overlapping;
  }
}
