/**
 * The table of attributions, the counts and the anomaly list of every run, row by row and entry by
 * entry, in the words of Meaning.
 */
module Tables {
  import opened Wrappers
  import opened Model
  import opened Collections
  import opened VerdictSpec
  import opened AttributionOrder
  import opened Diagnosis
  import opened Meaning

  // ---------------------------------------------------------------------- rows

  ghost function ResetPlaces(events: seq<ConnEvent>, ws: seq<RollWindow>, eps: Duration, i: int): set<int> {
    set k | 0 <= k < |events| && ResetIn(events[k], ws, eps, i)
  }

  ghost function HitConns(events: seq<ConnEvent>, ws: seq<RollWindow>, eps: Duration, i: int): set<string> {
    set e | e in events && ResetIn(e, ws, eps, i) :: e.connId
  }

  // Some connection was reset in window i, and every one that was came back.
  ghost predicate AllBack(events: seq<ConnEvent>, ws: seq<RollWindow>, eps: Duration, i: int) {
    && (exists c :: HitIn(events, ws, eps, i, c))
    && forall c :: HitIn(events, ws, eps, i, c) ==> exists x :: Waits(events, ws, eps, i, c, x)
  }

  // Some connection, reset in window i, came back after x.
  ghost predicate SomeWait(events: seq<ConnEvent>, ws: seq<RollWindow>, eps: Duration, i: int, x: Duration) {
    exists c :: Waits(events, ws, eps, i, c, x)
  }

  ghost predicate LongestWait(events: seq<ConnEvent>, ws: seq<RollWindow>, eps: Duration, i: int, x: Duration) {
    SomeWait(events, ws, eps, i, x) && forall y :: SomeWait(events, ws, eps, i, y) ==> y <= x
  }

  // What the row of window i says: the window, the resets charged to it, whether everything reset
  // there came back, and if so after how long.
  ghost predicate RowMeans(p: PerNodeAttribution, events: seq<ConnEvent>, ws: seq<RollWindow>, eps: Duration, i: int)
    requires 0 <= i < |ws|
  {
    && p.node == ws[i].node && p.window.drainingAt == ws[i].drainingAt
    && p.window.graceExpiresAt == ws[i].graceExpiresAt && p.window.readyAt == ws[i].readyAt
    && p.rawResets == |ResetPlaces(events, ws, eps, i)|
    && p.distinctConnsReset == |HitConns(events, ws, eps, i)|
    && (p.recovered <==> AllBack(events, ws, eps, i))
    && forall x :: p.recovery == Some(x) <==> p.recovered && LongestWait(events, ws, eps, i, x)
  }

  lemma CountsMean(events: seq<ConnEvent>, ws: seq<RollWindow>, eps: Duration, i: int)
    requires 0 <= i
    ensures Count(events, Charged(Attributor(ws, eps), i)) == |ResetPlaces(events, ws, eps, i)|
    ensures ResetConns(EventSet(events), Attributor(ws, eps), i) == HitConns(events, ws, eps, i)
    ensures HitConns(events, ws, eps, i) == {} <==> forall c :: !HitIn(events, ws, eps, i, c)
  {
    forall e ensures Attributor(ws, eps)(e) == i <==> ResetIn(e, ws, eps, i) { ChargeMeans(e, ws, eps, i); }
    CountIsPlaces(events, Charged(Attributor(ws, eps), i));
    assert Places(events, Charged(Attributor(ws, eps), i)) == ResetPlaces(events, ws, eps, i);
    if c :| HitIn(events, ws, eps, i, c) {
      assert c in HitConns(events, ws, eps, i);
    }
    if HitConns(events, ws, eps, i) != {} {
      var c :| c in HitConns(events, ws, eps, i);
      assert HitIn(events, ws, eps, i, c);
    }
  }

  lemma AllBackMeans(events: seq<ConnEvent>, ws: seq<RollWindow>, eps: Duration, i: int)
    requires 0 <= i
    ensures var E, o := EventSet(events), Attributor(ws, eps);
      ResetConns(E, o, i) != {} && !WindowUnrecovered(E, o, i) <==> AllBack(events, ws, eps, i)
  {
    var E, o := EventSet(events), Attributor(ws, eps);
    forall c ensures c in ResetConns(E, o, i) <==> HitIn(events, ws, eps, i, c) { ConnsMean(events, ws, eps, i, c); }
    forall c ensures c in ResetConns(E, o, i) && Gap(E, o, i, c).None? <==> NeverBack(events, ws, eps, i, c) {
      LossMeans(events, ws, eps, i, c);
    }
    if c :| HitIn(events, ws, eps, i, c) {
      assert c in ResetConns(E, o, i);
    }
    forall c | HitIn(events, ws, eps, i, c)
      ensures NeverBack(events, ws, eps, i, c) <==> !exists x :: Waits(events, ws, eps, i, c, x) {}
    if ResetConns(E, o, i) != {} {
      var c :| c in ResetConns(E, o, i);
      assert HitIn(events, ws, eps, i, c);
    }
  }

  lemma LongestMeans(events: seq<ConnEvent>, ws: seq<RollWindow>, eps: Duration, i: int, x: Duration)
    requires 0 <= i
    ensures var gaps := WindowGaps(EventSet(events), Attributor(ws, eps), i);
      gaps != {} && Max(gaps) == x <==> LongestWait(events, ws, eps, i, x)
  {
    var gaps := WindowGaps(EventSet(events), Attributor(ws, eps), i);
    forall y ensures y in gaps <==> SomeWait(events, ws, eps, i, y) { WindowGapsMean(events, ws, eps, i, y); }
    if LongestWait(events, ws, eps, i, x) {
      assert x in gaps && forall y :: y in gaps ==> y <= x;
    }
  }

  lemma AttributionMeans(events: seq<ConnEvent>, ws: seq<RollWindow>, eps: Duration, i: nat)
    requires i < |ws|
    ensures RowMeans(Attribution(events, Attributor(ws, eps), ws[i], i), events, ws, eps, i)
  {
    CountsMean(events, ws, eps, i);
    AllBackMeans(events, ws, eps, i);
    forall x ensures var gaps := WindowGaps(EventSet(events), Attributor(ws, eps), i);
      gaps != {} && Max(gaps) == x <==> LongestWait(events, ws, eps, i, x)
    {
      LongestMeans(events, ws, eps, i, x);
    }
  }

  ghost predicate RowsMean(rows: seq<PerNodeAttribution>, events: seq<ConnEvent>, ws: seq<RollWindow>, eps: Duration) {
    |rows| == |ws| && forall i :: 0 <= i < |ws| ==> RowMeans(rows[i], events, ws, eps, i)
  }

  // By node name, and by drain start within a node.
  ghost predicate ByNodeAndDrain(table: seq<PerNodeAttribution>) {
    forall j, k :: 0 <= j < k < |table| ==>
      || StrLess(table[j].node, table[k].node)
      || (table[j].node == table[k].node && table[j].window.drainingAt <= table[k].window.drainingAt)
  }

  lemma OrderedMeans(table: seq<PerNodeAttribution>)
    ensures Ordered(table) <==> ByNodeAndDrain(table)
  {
    forall j, k | 0 <= j < k < |table|
      ensures !Before(table[k], table[j]) <==>
        || StrLess(table[j].node, table[k].node)
        || (table[j].node == table[k].node && table[j].window.drainingAt <= table[k].window.drainingAt)
    {
      StrTrichotomy(table[j].node, table[k].node);
    }
  }

  /**
   * The table of every run: one row per window that says of it what RowMeans says, by node and
   * drain start, rows of equal node and start in window order.
   */
  lemma TableMeans(in_: Input) returns (rows: seq<PerNodeAttribution>)
    ensures RowsMean(rows, in_.events, in_.windows, in_.config.jitterTolerance)
    ensures multiset(rows) == multiset(Outcome(in_).perNodeAttribution)
    ensures forall p :: p in Outcome(in_).perNodeAttribution <==> p in rows
    ensures ByNodeAndDrain(Outcome(in_).perNodeAttribution)
    ensures forall p :: Select(Outcome(in_).perNodeAttribution, p) == Select(rows, p)
  {
    var events, ws, eps := in_.events, in_.windows, in_.config.jitterTolerance;
    rows := Attributions(events, Attributor(ws, eps), ws);
    forall i | 0 <= i < |ws| ensures RowMeans(rows[i], events, ws, eps, i) { AttributionMeans(events, ws, eps, i); }
    StableSortSorts(rows);
    SortKeeps(rows);
    OrderedMeans(StableSort(rows));
  }

  // --------------------------------------------------------- recovery and counts

  // The longest recovery in a table.
  ghost predicate LongestRow(table: seq<PerNodeAttribution>, x: Duration) {
    && (exists p :: p in table && p.recovery == Some(x))
    && forall p, y :: p in table && p.recovery == Some(y) ==> y <= x
  }

  // Every row with a reset says that it recovered.
  ghost predicate RowsRecovered(table: seq<PerNodeAttribution>) {
    forall p :: p in table && p.rawResets > 0 ==> p.recovered
  }

  lemma RowsLost(events: seq<ConnEvent>, ws: seq<RollWindow>, eps: Duration, rows: seq<PerNodeAttribution>)
    requires RowsMean(rows, events, ws, eps)
    ensures RowsRecovered(rows) <==> !AnyLoss(events, ws, eps)
  {
    if i, c :| 0 <= i < |ws| && NeverBack(events, ws, eps, i, c) {
      CountsMean(events, ws, eps, i);
      HitPlaces(events, ws, eps, i, c);
      assert rows[i] in rows && RowMeans(rows[i], events, ws, eps, i);
    }
    if p :| p in rows && p.rawResets > 0 && !p.recovered {
      var i :| 0 <= i < |rows| && rows[i] == p;
      var k := Element(ResetPlaces(events, ws, eps, i));
      assert events[k] in events && HitIn(events, ws, eps, i, events[k].connId);
      var c :| HitIn(events, ws, eps, i, c) && !exists x :: Waits(events, ws, eps, i, c, x);
      assert NeverBack(events, ws, eps, i, c);
    }
  }

  lemma HitPlaces(events: seq<ConnEvent>, ws: seq<RollWindow>, eps: Duration, i: int, c: string)
    requires HitIn(events, ws, eps, i, c)
    ensures |ResetPlaces(events, ws, eps, i)| > 0
  {
    var e :| e in events && ResetIn(e, ws, eps, i) && e.connId == c;
    var k :| 0 <= k < |events| && events[k] == e;
    assert k in ResetPlaces(events, ws, eps, i);
  }

  // The row of a window in which a connection waited has a recovery no shorter.
  lemma WaitingRow(events: seq<ConnEvent>, ws: seq<RollWindow>, eps: Duration, rows: seq<PerNodeAttribution>, i: int, c: string, y: Duration)
    requires RowsMean(rows, events, ws, eps) && !AnyLoss(events, ws, eps)
    requires 0 <= i < |ws| && Waits(events, ws, eps, i, c, y)
    ensures rows[i] in rows && rows[i].recovery.Some? && y <= rows[i].recovery.value
    ensures AnyWait(events, ws, eps, rows[i].recovery.value)
  {
    assert RowMeans(rows[i], events, ws, eps, i);
    WaitingWasHit(events, ws, eps, i, c, y);
    forall d | HitIn(events, ws, eps, i, d) ensures exists x :: Waits(events, ws, eps, i, d, x) {
      assert !NeverBack(events, ws, eps, i, d);
    }
    WindowGapsMean(events, ws, eps, i, y);
    var top := Max(WindowGaps(EventSet(events), Attributor(ws, eps), i));
    LongestMeans(events, ws, eps, i, top);
    assert rows[i].recovery == Some(top);
  }

  // Without loss a recovery of some row is a wait of the run.
  lemma RowWaited(events: seq<ConnEvent>, ws: seq<RollWindow>, eps: Duration, rows: seq<PerNodeAttribution>, p: PerNodeAttribution, x: Duration)
    requires RowsMean(rows, events, ws, eps) && p in rows && p.recovery == Some(x)
    ensures AnyWait(events, ws, eps, x)
  {
    var i :| 0 <= i < |rows| && rows[i] == p;
    assert RowMeans(rows[i], events, ws, eps, i);
  }

  ghost predicate LongestOverall(events: seq<ConnEvent>, ws: seq<RollWindow>, eps: Duration, x: Duration) {
    AnyWait(events, ws, eps, x) && forall y :: AnyWait(events, ws, eps, y) ==> y <= x
  }

  // Every wait of the run is covered by some row.
  lemma WaitCovered(events: seq<ConnEvent>, ws: seq<RollWindow>, eps: Duration, rows: seq<PerNodeAttribution>, y: Duration)
      returns (p: PerNodeAttribution, z: Duration)
    requires RowsMean(rows, events, ws, eps) && !AnyLoss(events, ws, eps) && AnyWait(events, ws, eps, y)
    ensures p in rows && p.recovery == Some(z) && y <= z && AnyWait(events, ws, eps, z)
  {
    var i, c :| 0 <= i < |ws| && Waits(events, ws, eps, i, c, y);
    WaitingRow(events, ws, eps, rows, i, c, y);
    p, z := rows[i], rows[i].recovery.value;
  }

  // Without loss the longest recovery of the rows is the longest wait of the run.
  lemma RowsLongest(events: seq<ConnEvent>, ws: seq<RollWindow>, eps: Duration, rows: seq<PerNodeAttribution>, x: Duration)
    requires RowsMean(rows, events, ws, eps) && !AnyLoss(events, ws, eps)
    ensures LongestRow(rows, x) <==> LongestOverall(events, ws, eps, x)
  {
    if LongestRow(rows, x) {
      var p :| p in rows && p.recovery == Some(x);
      RowWaited(events, ws, eps, rows, p, x);
      forall y | AnyWait(events, ws, eps, y) ensures y <= x {
        var q, z := WaitCovered(events, ws, eps, rows, y);
      }
    }
    if LongestOverall(events, ws, eps, x) {
      var p, z := WaitCovered(events, ws, eps, rows, x);
      forall q, y | q in rows && q.recovery == Some(y) ensures y <= x { RowWaited(events, ws, eps, rows, q, y); }
    }
  }

  lemma SameRows(rows: seq<PerNodeAttribution>, table: seq<PerNodeAttribution>)
    requires multiset(rows) == multiset(table)
    ensures RowsRecovered(rows) <==> RowsRecovered(table)
    ensures forall x :: LongestRow(rows, x) <==> LongestRow(table, x)
  {
    SameElements(rows, table);
  }

  /** The run's recovery is the longest of its table, provided that every row with a reset recovered. */
  lemma RecoveryOfRows(in_: Input)
    ensures var table := Outcome(in_).perNodeAttribution;
      forall x :: Outcome(in_).recovery == Some(x) <==> RowsRecovered(table) && LongestRow(table, x)
  {
    var events, ws, eps := in_.events, in_.windows, in_.config.jitterTolerance;
    var rows := TableMeans(in_);
    SameRows(rows, Outcome(in_).perNodeAttribution);
    RowsLost(events, ws, eps, rows);
    AnyLossMeans(events, ws, eps);
    forall x ensures Outcome(in_).recovery == Some(x) <==> RowsRecovered(rows) && LongestRow(rows, x) {
      LongestOfAll(events, ws, eps, x);
      if !AnyLoss(events, ws, eps) {
        RowsLongest(events, ws, eps, rows, x);
      }
    }
  }

  lemma LongestOfAll(events: seq<ConnEvent>, ws: seq<RollWindow>, eps: Duration, x: Duration)
    ensures var gaps := AllGaps(EventSet(events), Attributor(ws, eps), |ws|);
      gaps != {} && Max(gaps) == x <==> LongestOverall(events, ws, eps, x)
  {
    forall y ensures y in AllGaps(EventSet(events), Attributor(ws, eps), |ws|) <==> AnyWait(events, ws, eps, y) {
      AllGapsMean(events, ws, eps, y);
    }
  }

  ghost predicate IsHit(events: seq<ConnEvent>, ws: seq<RollWindow>, eps: Duration, i: int) {
    exists c :: HitIn(events, ws, eps, i, c)
  }

  // The windows that a reset is charged to.
  ghost function HitWindows(events: seq<ConnEvent>, ws: seq<RollWindow>, eps: Duration): set<int> {
    set i | 0 <= i < |ws| && IsHit(events, ws, eps, i)
  }

  lemma HitRows(events: seq<ConnEvent>, ws: seq<RollWindow>, eps: Duration, i: nat)
    requires i < |ws|
    ensures Attributions(events, Attributor(ws, eps), ws)[i].distinctConnsReset >= 1 <==> i in HitWindows(events, ws, eps)
  {
    CountsMean(events, ws, eps, i);
  }

  lemma AffectedRows(ps: seq<PerNodeAttribution>, hit: set<int>)
    requires forall i :: i in hit <==> 0 <= i < |ps| && ps[i].distinctConnsReset >= 1
    ensures Count(ps, Affected()) == |hit|
    ensures AffectedNodes(ps) == set i | i in hit :: ps[i].node
  {
    CountIsPlaces(ps, Affected());
    assert Places(ps, Affected()) == hit;
    forall i | i in hit ensures ps[i].node in AffectedNodes(ps) { assert ps[i] in ps; }
  }

  /** Affected are the windows that a reset is charged to, and the nodes of these. */
  lemma AffectedMean(in_: Input)
    ensures var hit := HitWindows(in_.events, in_.windows, in_.config.jitterTolerance);
      && Outcome(in_).affectedNodeWindows == |hit|
      && Outcome(in_).distinctNodesAffected == |set i | i in hit :: in_.windows[i].node|
  {
    var events, ws, eps := in_.events, in_.windows, in_.config.jitterTolerance;
    var ps, hit := Attributions(events, Attributor(ws, eps), ws), HitWindows(events, ws, eps);
    forall i | 0 <= i < |ws| ensures ps[i].distinctConnsReset >= 1 <==> i in hit { HitRows(events, ws, eps, i); }
    AffectedRows(ps, hit);
    assert (set i | i in hit :: ps[i].node) == set i | i in hit :: ws[i].node;
  }

  /** The fields that a result copies or counts. */
  lemma FieldsMean(in_: Input)
    ensures var res, events := Outcome(in_), in_.events;
      && res.schemaVersion == "harness/v1" && res.trigger == in_.trigger
      && res.recoveryBoundSeconds == in_.config.recoveryBoundSeconds
      && res.newConnFailures == |set k | 0 <= k < |events| && events[k].kind == NewConnAttemptFail|
      && res.existingConnRSTs == |set k | 0 <= k < |events| && events[k].kind == ConnReset|
      && (in_.config.appACorroboration.Some? ==> in_.config.appACorroboration == Some(res.corroboration))
      && (in_.config.appACorroboration.None? ==>
            !res.corroboration.appAConnReset && res.corroboration.note == "no app-a corroboration available")
  {
    CountIsPlaces(in_.events, OfKind(NewConnAttemptFail));
    CountIsPlaces(in_.events, OfKind(ConnReset));
    assert Places(in_.events, OfKind(NewConnAttemptFail))
        == set k | 0 <= k < |in_.events| && in_.events[k].kind == NewConnAttemptFail;
    assert Places(in_.events, OfKind(ConnReset)) == set k | 0 <= k < |in_.events| && in_.events[k].kind == ConnReset;
  }

  // ----------------------------------------------------------------- anomalies

  // An anomaly that names nothing but its reason.
  predicate Bare(a: Anomaly) {
    a.connId == "" && a.node == "" && a.ts == None
  }

  // It names the connection, the node and the instant of event e.
  predicate Names(a: Anomaly, e: ConnEvent) {
    a.connId == e.connId && a.node == e.node && a.ts == Some(e.ts)
  }

  // It names window v's node and the later of the two drain starts.
  predicate NamesOverlap(a: Anomaly, v: RollWindow, w: RollWindow) {
    && a.connId == "" && a.node == v.node
    && (a.ts == Some(v.drainingAt) || a.ts == Some(w.drainingAt))
    && a.ts.value >= v.drainingAt && a.ts.value >= w.drainingAt
  }

  ghost predicate OverlapEntry(a: Anomaly, ws: seq<RollWindow>, eps: Duration) {
    exists i, j :: 0 <= i < j < |ws| && TogetherTooLong(ws[i], ws[j], eps) && NamesOverlap(a, ws[i], ws[j])
  }

  // What an entry of the list names, reason by reason.
  ghost predicate Entry(a: Anomaly, events: seq<ConnEvent>, ws: seq<RollWindow>, k: Terms) {
    match a.reason
    case HalfOpenWindow =>
      exists w :: w in ws && w.readyAt == None && a.connId == "" && a.node == w.node && a.ts == Some(w.drainingAt)
    case DiedBeforeDrain =>
      exists e :: e in events && (e.kind == ConnReset || e.kind == ConnEOF) && BeforeDrains(e.ts, ws, k.eps) && Names(a, e)
    case DropOnNonUpgradingNode => exists e :: e in events && Stray(e, ws, k.eps) && Names(a, e)
    case OverlappingNodeWindows => OverlapEntry(a, ws, k.eps)
    case SameConnTwoWindows => HitTwice(events, ws, k.eps, a.connId) && a.node == "" && a.ts == None
    case _ => Earned(events, ws, k, a.reason) && Bare(a)
  }

  lemma {:induction false} HalfOpenEntries(ws: seq<RollWindow>, a: Anomaly)
    ensures a in HalfOpenAnomalies(ws) <==>
      exists w :: w in ws && w.readyAt == None && a == Anomaly(HalfOpenWindow, "", w.node, Some(w.drainingAt))
  {
    if ws != [] {
      HalfOpenEntries(ws[..|ws| - 1], a);
      assert ws == ws[..|ws| - 1] + [ws[|ws| - 1]];
    }
  }

  // Where an overlap entry comes from ...
  lemma {:induction false} RowSource(ws: seq<RollWindow>, eps: Duration, i: nat, n: nat, a: Anomaly) returns (j: nat)
    requires i < n <= |ws| && a in RowOverlaps(ws, eps, i, n)
    ensures i < j < n && a in PairAnomaly(ws[i], ws[j], eps)
    decreases n
  {
    if a in PairAnomaly(ws[i], ws[n - 1], eps) {
      j := n - 1;
    } else {
      j := RowSource(ws, eps, i, n - 1, a);
    }
  }

  // ... and that every pair's entry is there.
  lemma {:induction false} RowHas(ws: seq<RollWindow>, eps: Duration, i: nat, n: nat, j: nat, a: Anomaly)
    requires i < j < n <= |ws| && a in PairAnomaly(ws[i], ws[j], eps)
    ensures a in RowOverlaps(ws, eps, i, n)
    decreases n
  {
    if j < n - 1 {
      RowHas(ws, eps, i, n - 1, j, a);
    }
  }

  lemma PairNames(v: RollWindow, w: RollWindow, eps: Duration, a: Anomaly)
    ensures a in PairAnomaly(v, w, eps) <==>
      a.reason == OverlappingNodeWindows && TogetherTooLong(v, w, eps) && NamesOverlap(a, v, w)
  {
    OverlapMeans(v, w, eps);
  }

  lemma OverlapEntries(ws: seq<RollWindow>, eps: Duration, a: Anomaly)
    ensures a in OverlapAnomalies(ws, eps, |ws|) <==> a.reason == OverlappingNodeWindows && OverlapEntry(a, ws, eps)
  {
    RowsHold(ws, eps, |ws|, a);
    if InSomeRow(ws, eps, |ws|, a) {
      var i: nat :| i < |ws| && a in RowOverlaps(ws, eps, i, |ws|);
      var j := RowSource(ws, eps, i, |ws|, a);
      PairNames(ws[i], ws[j], eps, a);
    }
    if a.reason == OverlappingNodeWindows && OverlapEntry(a, ws, eps) {
      var i, j :| 0 <= i < j < |ws| && TogetherTooLong(ws[i], ws[j], eps) && NamesOverlap(a, ws[i], ws[j]);
      PairNames(ws[i], ws[j], eps, a);
      RowHas(ws, eps, i, |ws|, j, a);
    }
  }

  lemma SameConnEntries(events: seq<ConnEvent>, ws: seq<RollWindow>, eps: Duration, a: Anomaly)
    ensures a in SameConnAnomalies(SortedSeq(DoubleConns(EventSet(events), Attributor(ws, eps), |ws|))) <==>
      a.reason == SameConnTwoWindows && HitTwice(events, ws, eps, a.connId) && a.node == "" && a.ts == None
  {
    var E, o := EventSet(events), Attributor(ws, eps);
    var conns := SortedSeq(DoubleConns(E, o, |ws|));
    TwiceMeans(events, ws, eps, a.connId);
    assert a.connId in conns <==> InTwoWindows(E, o, |ws|, a.connId);
    if a in SameConnAnomalies(conns) {
      var k :| 0 <= k < |conns| && SameConnAnomalies(conns)[k] == a;
    }
    if a.reason == SameConnTwoWindows && HitTwice(events, ws, eps, a.connId) && a.node == "" && a.ts == None {
      var k :| 0 <= k < |conns| && conns[k] == a.connId;
      assert SameConnAnomalies(conns)[k] == a;
    }
  }

  // Of the other reasons.
  predicate PlainReason(r: Reason) {
    r == TriggerPrereqMissing || r == NoRolloutObserved || r == PoolNotRecovered || r == RecoveryOverBound || r == NewConnFailure
  }

  lemma EventEntriesMean(events: seq<ConnEvent>, ws: seq<RollWindow>, k: Terms, a: Anomaly)
    ensures a in EventAnomalies(events, ws, k.eps) <==>
      (a.reason == DiedBeforeDrain || a.reason == DropOnNonUpgradingNode) && Entry(a, events, ws, k)
  {
    EventEntries(events, ws, k.eps, a);
    forall e: ConnEvent ensures Died(e, ws, k.eps) <==> (e.kind == ConnReset || e.kind == ConnEOF) && BeforeDrains(e.ts, ws, k.eps) {}
    forall e ensures Dropped(e, ws, k.eps) <==> Stray(e, ws, k.eps) { OwnerMeans(e.ts, ws, k.eps); }
    forall r, e ensures a == At(r, e) <==> a.reason == r && Names(a, e) {}
  }

  lemma HalfOpenEntriesMean(events: seq<ConnEvent>, ws: seq<RollWindow>, k: Terms, a: Anomaly)
    ensures a in HalfOpenAnomalies(ws) <==> a.reason == HalfOpenWindow && Entry(a, events, ws, k)
  {
    HalfOpenEntries(ws, a);
  }

  // The blocks without a connection, a node or an instant.
  ghost function BareBlocks(in_: Input): seq<Anomaly> {
    var E, o := EventSet(in_.events), Attributor(in_.windows, in_.config.jitterTolerance);
    PrereqAnomalies(in_.config) + NoRolloutAnomalies(in_.config, in_.windows)
    + RecoveryAnomalies(E, o, |in_.windows|, in_.config) + NewConnAnomalies(in_.events)
  }

  // A block that, if anything, holds the bare reason r.
  lemma SoleEntry(block: seq<Anomaly>, r: Reason, present: bool, a: Anomaly)
    requires block == if present then [Plain(r)] else []
    ensures a in block <==> a.reason == r && present && Bare(a)
  {
  }

  lemma RecoveryEntry(in_: Input, a: Anomaly)
    ensures a in RecoveryAnomalies(EventSet(in_.events), Attributor(in_.windows, in_.config.jitterTolerance), |in_.windows|, in_.config)
      <==> (a.reason == PoolNotRecovered || a.reason == RecoveryOverBound) && Violates(in_, a.reason) && Bare(a)
  {
    var E, o, n := EventSet(in_.events), Attributor(in_.windows, in_.config.jitterTolerance), |in_.windows|;
    RecoveryExact(E, o, n, in_.config);
    var f := FactsOf(in_);
    SoleEntry(RecoveryAnomalies(E, o, n, in_.config), if f.unrecovered then PoolNotRecovered else RecoveryOverBound,
              f.unrecovered || f.overBound, a);
  }

  lemma BareEntries(in_: Input, a: Anomaly)
    ensures a in BareBlocks(in_) <==> PlainReason(a.reason) && Violates(in_, a.reason) && Bare(a)
  {
    var f := FactsOf(in_);
    NewConnExact(in_.events);
    SoleEntry(PrereqAnomalies(in_.config), TriggerPrereqMissing, f.prereqMissing, a);
    SoleEntry(NoRolloutAnomalies(in_.config, in_.windows), NoRolloutObserved, f.noRollout, a);
    SoleEntry(NewConnAnomalies(in_.events), NewConnFailure, f.newConnFailed, a);
    RecoveryEntry(in_, a);
  }

  lemma InEight(a: Anomaly, b: seq<Anomaly>, c: seq<Anomaly>, d: seq<Anomaly>, e: seq<Anomaly>, f: seq<Anomaly>,
                g: seq<Anomaly>, h: seq<Anomaly>, i: seq<Anomaly>)
    ensures a in b + c + d + e + f + g + h + i <==> a in b + c + h + i || a in d || a in e || a in f || a in g
  {
  }

  // The list, block by block.
  lemma InBlocks(in_: Input, a: Anomaly)
    ensures var ws, eps := in_.windows, in_.config.jitterTolerance;
      a in Anomalies(in_) <==>
        || a in BareBlocks(in_) || a in HalfOpenAnomalies(ws) || a in OverlapAnomalies(ws, eps, |ws|)
        || a in EventAnomalies(in_.events, ws, eps)
        || a in SameConnAnomalies(SortedSeq(DoubleConns(EventSet(in_.events), Attributor(ws, eps), |ws|)))
  {
    var events, ws, eps := in_.events, in_.windows, in_.config.jitterTolerance;
    var E, o := EventSet(events), Attributor(ws, eps);
    InEight(a, PrereqAnomalies(in_.config), NoRolloutAnomalies(in_.config, ws), HalfOpenAnomalies(ws),
            OverlapAnomalies(ws, eps, |ws|), EventAnomalies(events, ws, eps),
            SameConnAnomalies(SortedSeq(DoubleConns(E, o, |ws|))), RecoveryAnomalies(E, o, |ws|, in_.config),
            NewConnAnomalies(events));
  }

  // Entry, by the block that an anomaly belongs to.
  lemma EntryOf(events: seq<ConnEvent>, ws: seq<RollWindow>, k: Terms, a: Anomaly)
    ensures a.reason == OverlappingNodeWindows ==> (Entry(a, events, ws, k) <==> OverlapEntry(a, ws, k.eps))
    ensures a.reason == SameConnTwoWindows ==>
      (Entry(a, events, ws, k) <==> HitTwice(events, ws, k.eps, a.connId) && a.node == "" && a.ts == None)
    ensures PlainReason(a.reason) ==> (Entry(a, events, ws, k) <==> Earned(events, ws, k, a.reason) && Bare(a))
  {
  }

  /** The anomaly list of every run: exactly the entries that its events and windows call for. */
  lemma AnomaliesMean(in_: Input, k: Terms, a: Anomaly)
    requires k.eps == in_.config.jitterTolerance && k.bound == in_.config.recoveryBoundSeconds * 1_000_000_000
    requires k.prereqMissing == (in_.config.triggerPrereqError != "") && k.fired == in_.config.triggerFired
    ensures a in Outcome(in_).anomalies <==> Entry(a, in_.events, in_.windows, k)
  {
    var events, ws := in_.events, in_.windows;
    EntryOf(events, ws, k, a);
    assert a in BareBlocks(in_) <==> PlainReason(a.reason) && Entry(a, events, ws, k) by {
      BareEntries(in_, a);
      EarnedExactly(in_, a.reason);
    }
    HalfOpenEntriesMean(events, ws, k, a);
    OverlapEntries(ws, k.eps, a);
    EventEntriesMean(events, ws, k, a);
    SameConnEntries(events, ws, k.eps, a);
    InBlocks(in_, a);
  }
}
