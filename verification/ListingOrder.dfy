/**
 * What the order in which windows are listed does to the anomaly list: it decides which of two
 * overlapping nodes an overlap anomaly names, and nothing else but the order of the list.
 */
module ListingOrder {
  import opened Wrappers
  import opened Model
  import opened Collections
  import opened VerdictSpec
  import opened Diagnosis
  import opened Analyzer
  import opened EventTheorems
  import opened WindowTheorems

  // ------------------------------------------------------------ erased anomalies

  // An anomaly without the node that an overlap happens to be reported under.
  function Erase(a: Anomaly): Anomaly {
    if a.reason == OverlappingNodeWindows then a.(node := "") else a
  }

  function Erased(found: seq<Anomaly>): seq<Anomaly> {
    if found == [] then [] else Erased(found[..|found| - 1]) + [Erase(found[|found| - 1])]
  }

  lemma {:induction false} ErasedConcat(a: seq<Anomaly>, b: seq<Anomaly>)
    ensures Erased(a + b) == Erased(a) + Erased(b)
  {
    if b == [] {
      assert a + b == a;
    } else {
      assert (a + b)[..|a + b| - 1] == a + b[..|b| - 1];
      ErasedConcat(a, b[..|b| - 1]);
    }
  }

  lemma {:induction false} ErasedPermutation(a: seq<Anomaly>, b: seq<Anomaly>)
    requires multiset(a) == multiset(b)
    ensures multiset(Erased(a)) == multiset(Erased(b))
  {
    if a == [] {
      assert |multiset(b)| == 0;
    } else {
      var i := SplitAtLast(a, b);
      ErasedPermutation(a[..|a| - 1], b[..i] + b[i + 1..]);
      ErasedConcat(b[..i], b[i + 1..]);
      ErasedConcat(b[..i], [b[i]]);
      ErasedConcat(b[..i] + [b[i]], b[i + 1..]);
      assert Erased([b[i]]) == [Erase(b[i])] by { assert [b[i]][..0] == []; }
    }
  }

  // ------------------------------------------------- overlaps as unordered pairs

  // The erased anomalies of x with each of ws.
  ghost function Meets(ws: seq<RollWindow>, x: RollWindow, eps: Duration): multiset<Anomaly> {
    if ws == [] then multiset{}
    else Meets(ws[..|ws| - 1], x, eps) + Pair(ws[|ws| - 1], x, eps)
  }

  ghost function Pair(a: RollWindow, b: RollWindow, eps: Duration): multiset<Anomaly> {
    multiset(Erased(PairAnomaly(a, b, eps)))
  }

  // ... and of all pairs.
  ghost function Pairs(ws: seq<RollWindow>, eps: Duration): multiset<Anomaly> {
    if ws == [] then multiset{}
    else Pairs(ws[..|ws| - 1], eps) + Meets(ws[..|ws| - 1], ws[|ws| - 1], eps)
  }

  lemma PairSymmetric(a: RollWindow, b: RollWindow, eps: Duration)
    ensures Pair(a, b, eps) == Pair(b, a, eps)
  {
    var p, q := PairAnomaly(a, b, eps), PairAnomaly(b, a, eps);
    assert CrossNodeOverlap(a, b, eps) <==> CrossNodeOverlap(b, a, eps);
    if CrossNodeOverlap(a, b, eps) {
      assert p == [p[0]] && q == [q[0]] && p[..0] == [] && q[..0] == [];
      assert Erase(p[0]) == Erase(q[0]);
    }
  }

  lemma MeetsAppend(ws: seq<RollWindow>, y: RollWindow, x: RollWindow, eps: Duration)
    ensures Meets(ws + [y], x, eps) == Meets(ws, x, eps) + Pair(y, x, eps)
  {
    assert (ws + [y])[..|ws|] == ws;
  }

  lemma PairsAppend(ws: seq<RollWindow>, x: RollWindow, eps: Duration)
    ensures Pairs(ws + [x], eps) == Pairs(ws, eps) + Meets(ws, x, eps)
  {
    assert (ws + [x])[..|ws|] == ws;
  }

  // One window may be taken out of the middle.
  lemma {:induction false} MeetsTakeOut(a: seq<RollWindow>, y: RollWindow, b: seq<RollWindow>, x: RollWindow, eps: Duration)
    ensures Meets(a + [y] + b, x, eps) == Meets(a + b, x, eps) + Pair(y, x, eps)
  {
    if b == [] {
      assert a + [y] + b == a + [y] && a + b == a;
      MeetsAppend(a, y, x, eps);
    } else {
      var c, z := b[..|b| - 1], b[|b| - 1];
      assert b == c + [z];
      assert a + [y] + b == (a + [y] + c) + [z] && a + b == (a + c) + [z];
      MeetsTakeOut(a, y, c, x, eps);
      MeetsAppend(a + [y] + c, z, x, eps);
      MeetsAppend(a + c, z, x, eps);
    }
  }

  lemma {:induction false} PairsTakeOut(a: seq<RollWindow>, y: RollWindow, b: seq<RollWindow>, eps: Duration)
    ensures Pairs(a + [y] + b, eps) == Pairs(a + b, eps) + Meets(a + b, y, eps)
  {
    if b == [] {
      assert a + [y] + b == a + [y] && a + b == a;
      PairsAppend(a, y, eps);
    } else {
      var c, z := b[..|b| - 1], b[|b| - 1];
      assert b == c + [z];
      assert a + [y] + b == (a + [y] + c) + [z] && a + b == (a + c) + [z];
      PairsTakeOut(a, y, c, eps);
      PairsAppend(a + [y] + c, z, eps);
      PairsAppend(a + c, z, eps);
      MeetsTakeOut(a, y, c, z, eps);
      MeetsAppend(a + c, z, y, eps);
      PairSymmetric(y, z, eps);
    }
  }

  lemma {:induction false} MeetsPermutation(a: seq<RollWindow>, b: seq<RollWindow>, x: RollWindow, eps: Duration)
    requires multiset(a) == multiset(b)
    ensures Meets(a, x, eps) == Meets(b, x, eps)
  {
    if a == [] {
      assert |multiset(b)| == 0;
    } else {
      var i := SplitAtLast(a, b);
      MeetsPermutation(a[..|a| - 1], b[..i] + b[i + 1..], x, eps);
      MeetsTakeOut(b[..i], b[i], b[i + 1..], x, eps);
    }
  }

  lemma {:induction false} PairsPermutation(a: seq<RollWindow>, b: seq<RollWindow>, eps: Duration)
    requires multiset(a) == multiset(b)
    ensures Pairs(a, eps) == Pairs(b, eps)
  {
    if a == [] {
      assert |multiset(b)| == 0;
    } else {
      var i := SplitAtLast(a, b);
      PairsPermutation(a[..|a| - 1], b[..i] + b[i + 1..], eps);
      MeetsPermutation(a[..|a| - 1], b[..i] + b[i + 1..], b[i], eps);
      PairsTakeOut(b[..i], b[i], b[i + 1..], eps);
    }
  }

  // ----------------------------------------------- the scan's rows as such pairs

  lemma {:induction false} RowPrefix(ws: seq<RollWindow>, x: RollWindow, eps: Duration, i: nat, n: nat)
    requires i < n <= |ws|
    ensures RowOverlaps(ws + [x], eps, i, n) == RowOverlaps(ws, eps, i, n)
    decreases n
  {
    if n > i + 1 {
      RowPrefix(ws, x, eps, i, n - 1);
      assert (ws + [x])[i] == ws[i] && (ws + [x])[n - 1] == ws[n - 1];
    }
  }

  // One more window adds one pair to each row.
  lemma RowGrows(ws: seq<RollWindow>, x: RollWindow, eps: Duration, i: nat)
    requires i < |ws|
    ensures RowOverlaps(ws + [x], eps, i, |ws| + 1) == RowOverlaps(ws, eps, i, |ws|) + PairAnomaly(ws[i], x, eps)
  {
    RowPrefix(ws, x, eps, i, |ws|);
  }

  lemma GrowStep(a: seq<Anomaly>, b: seq<Anomaly>, c: seq<Anomaly>, d: seq<Anomaly>, p: seq<Anomaly>, m: multiset<Anomaly>)
    requires multiset(Erased(a)) == multiset(Erased(c)) + m && b == d + p
    ensures multiset(Erased(a + b)) == multiset(Erased(c + d)) + (m + multiset(Erased(p)))
  {
    ErasedConcat(a, b);
    ErasedConcat(c, d);
    ErasedConcat(d, p);
  }

  lemma LastRow(ws: seq<RollWindow>, eps: Duration, rows: nat)
    requires 0 < rows <= |ws|
    ensures OverlapAnomalies(ws, eps, rows) == OverlapAnomalies(ws, eps, rows - 1) + RowOverlaps(ws, eps, rows - 1, |ws|)
  {
  }

  lemma MeetsPrefix(ws: seq<RollWindow>, x: RollWindow, eps: Duration, i: nat)
    requires i < |ws|
    ensures Meets(ws[..i + 1], x, eps) == Meets(ws[..i], x, eps) + multiset(Erased(PairAnomaly(ws[i], x, eps)))
  {
    assert ws[..i + 1] == ws[..i] + [ws[i]];
    MeetsAppend(ws[..i], ws[i], x, eps);
  }

  // more is ws with x appended.
  lemma {:induction false} RowsGrow(ws: seq<RollWindow>, more: seq<RollWindow>, x: RollWindow, eps: Duration, rows: nat)
    requires rows <= |ws| && more == ws + [x]
    ensures multiset(Erased(OverlapAnomalies(more, eps, rows)))
         == multiset(Erased(OverlapAnomalies(ws, eps, rows))) + Meets(ws[..rows], x, eps)
  {
    if rows > 0 {
      var i := rows - 1;
      RowsGrow(ws, more, x, eps, i);
      RowGrows(ws, x, eps, i);
      GrowStep(OverlapAnomalies(more, eps, i), RowOverlaps(more, eps, i, |more|),
               OverlapAnomalies(ws, eps, i), RowOverlaps(ws, eps, i, |ws|), PairAnomaly(ws[i], x, eps), Meets(ws[..i], x, eps));
      LastRow(more, eps, rows);
      LastRow(ws, eps, rows);
      MeetsPrefix(ws, x, eps, i);
    }
  }

  lemma LastRowIsEmpty(ws: seq<RollWindow>, eps: Duration)
    requires ws != []
    ensures OverlapAnomalies(ws, eps, |ws|) == OverlapAnomalies(ws, eps, |ws| - 1)
  {
    LastRow(ws, eps, |ws|);
    assert RowOverlaps(ws, eps, |ws| - 1, |ws|) == [];
  }

  lemma LastWindowPairs(rest: seq<RollWindow>, ws: seq<RollWindow>, x: RollWindow, eps: Duration)
    requires ws == rest + [x]
    ensures multiset(Erased(OverlapAnomalies(ws, eps, |ws|)))
         == multiset(Erased(OverlapAnomalies(rest, eps, |rest|))) + Meets(rest, x, eps)
  {
    RowsGrow(rest, ws, x, eps, |rest|);
    assert rest[..|rest|] == rest;
    LastRowIsEmpty(ws, eps);
  }

  lemma {:induction false} OverlapsArePairs(ws: seq<RollWindow>, eps: Duration)
    ensures multiset(Erased(OverlapAnomalies(ws, eps, |ws|))) == Pairs(ws, eps)
  {
    if ws != [] {
      var n := |ws| - 1;
      var rest, x := ws[..n], ws[n];
      assert ws == rest + [x];
      OverlapsArePairs(rest, eps);
      LastWindowPairs(rest, ws, x, eps);
      PairsAppend(rest, x, eps);
    }
  }

  // ------------------------------------------------------------ the other blocks

  lemma {:induction false} HalfOpenConcat(a: seq<RollWindow>, b: seq<RollWindow>)
    ensures HalfOpenAnomalies(a + b) == HalfOpenAnomalies(a) + HalfOpenAnomalies(b)
  {
    if b == [] {
      assert a + b == a;
    } else {
      assert (a + b)[..|a + b| - 1] == a + b[..|b| - 1];
      HalfOpenConcat(a, b[..|b| - 1]);
    }
  }

  lemma {:induction false} HalfOpenPermutation(a: seq<RollWindow>, b: seq<RollWindow>)
    requires multiset(a) == multiset(b)
    ensures multiset(HalfOpenAnomalies(a)) == multiset(HalfOpenAnomalies(b))
  {
    if a == [] {
      assert |multiset(b)| == 0;
    } else {
      var i := SplitAtLast(a, b);
      HalfOpenPermutation(a[..|a| - 1], b[..i] + b[i + 1..]);
      HalfOpenConcat(b[..i], b[i + 1..]);
      HalfOpenConcat(b[..i], [b[i]]);
      HalfOpenConcat(b[..i] + [b[i]], b[i + 1..]);
      assert HalfOpenAnomalies([b[i]]) == HalfOpenOf(b[i]) by { assert [b[i]][..0] == []; }
    }
  }

  // What the listing cannot touch: everything behind the windows' own blocks.
  ghost function Behind(in_: Input): seq<Anomaly> {
    var E, ws, eps := EventSet(in_.events), in_.windows, in_.config.jitterTolerance;
    var o := Attributor(ws, eps);
    EventAnomalies(in_.events, ws, eps)
    + SameConnAnomalies(SortedSeq(DoubleConns(E, o, |ws|)))
    + RecoveryAnomalies(E, o, |ws|, in_.config)
    + NewConnAnomalies(in_.events)
  }

  lemma {:induction false} SameEventAnomalies(es: seq<ConnEvent>, ws: seq<RollWindow>, vs: seq<RollWindow>, eps: Duration)
    requires forall w :: w in ws <==> w in vs
    requires ws == [] <==> vs == []
    ensures EventAnomalies(es, ws, eps) == EventAnomalies(es, vs, eps)
  {
    if es != [] {
      var n := |es| - 1;
      SameEventAnomalies(es[..n], ws, vs, eps);
      OwnerNone(es[n].ts, ws, eps);
      OwnerNone(es[n].ts, vs, eps);
      assert Early(es[n].ts, ws, eps) <==> Early(es[n].ts, vs, eps);
    }
  }

  lemma SameDoubles(E: set<ConnEvent>, o: ConnEvent -> int, p: ConnEvent -> int, n: nat)
    requires SameGroups(o, p) && Bounded(o, n) && Bounded(p, n)
    ensures DoubleConns(E, o, n) == DoubleConns(E, p, n)
  {
    GroupsCarryOver(E, o, n, p, n);
    assert SameGroups(p, o);
    GroupsCarryOver(E, p, n, o, n);
    assert AttributedConns(E, o) == AttributedConns(E, p);
  }

  lemma SameRecovery(E: set<ConnEvent>, o: ConnEvent -> int, p: ConnEvent -> int, n: nat, cfg: Config)
    requires SameGroups(o, p) && Bounded(o, n) && Bounded(p, n)
    ensures RecoveryAnomalies(E, o, n, cfg) == RecoveryAnomalies(E, p, n, cfg)
  {
    TotalsFollow(E, o, p, n, cfg.recoveryBoundSeconds * SECOND);
  }

  lemma SameBehind(a: Input, b: Input, grace: Duration)
    requires Reordered(a, b) && WatcherWindows(a.windows, grace)
    ensures Behind(a) == Behind(b)
  {
    var E, eps, n := EventSet(a.events), a.config.jitterTolerance, |a.windows|;
    var o, p := Attributor(a.windows, eps), Attributor(b.windows, eps);
    SameWindows(a, b);
    WatcherGroups(a.windows, b.windows, grace, eps);
    AttributorBounded(a.windows, eps);
    AttributorBounded(b.windows, eps);
    SameEventAnomalies(a.events, a.windows, b.windows, eps);
    SameDoubles(E, o, p, n);
    SameRecovery(E, o, p, n, a.config);
  }

  // The list is: trigger, half-open windows, overlaps, and the rest.
  ghost function Trigger(in_: Input): seq<Anomaly> {
    PrereqAnomalies(in_.config) + NoRolloutAnomalies(in_.config, in_.windows)
  }

  ghost function Overlaps(in_: Input): seq<Anomaly> {
    OverlapAnomalies(in_.windows, in_.config.jitterTolerance, |in_.windows|)
  }

  lemma Regroup(front: seq<Anomaly>, a: seq<Anomaly>, b: seq<Anomaly>, c: seq<Anomaly>, d: seq<Anomaly>)
    ensures front + a + b + c + d == front + (a + b + c + d)
  {
  }

  lemma FourParts(in_: Input)
    ensures Anomalies(in_) == Trigger(in_) + HalfOpenAnomalies(in_.windows) + Overlaps(in_) + Behind(in_)
  {
    var E, ws, eps := EventSet(in_.events), in_.windows, in_.config.jitterTolerance;
    var o := Attributor(ws, eps);
    Regroup(WindowAnomalies(in_), EventAnomalies(in_.events, ws, eps),
            SameConnAnomalies(SortedSeq(DoubleConns(E, o, |ws|))),
            RecoveryAnomalies(E, o, |ws|, in_.config), NewConnAnomalies(in_.events));
    assert WindowAnomalies(in_) == Trigger(in_) + HalfOpenAnomalies(ws) + Overlaps(in_);
  }

  lemma SameTrigger(a: Input, b: Input)
    requires Reordered(a, b)
    ensures Trigger(a) == Trigger(b)
  {
    SameWindows(a, b);
  }

  /** Without the node an overlap is reported under, every listing has the same anomalies. */
  lemma AnomaliesIgnoreWindowOrder(a: Input, b: Input, grace: Duration)
    requires Reordered(a, b) && WatcherWindows(a.windows, grace)
    ensures multiset(Erased(Outcome(a).anomalies)) == multiset(Erased(Outcome(b).anomalies))
  {
    var eps := a.config.jitterTolerance;
    FourParts(a);
    FourParts(b);
    SameTrigger(a, b);
    SameBehind(a, b, grace);
    HalfOpenPermutation(a.windows, b.windows);
    ErasedPermutation(HalfOpenAnomalies(a.windows), HalfOpenAnomalies(b.windows));
    OverlapsArePairs(a.windows, eps);
    OverlapsArePairs(b.windows, eps);
    PairsPermutation(a.windows, b.windows, eps);
    ErasedFour(Trigger(a), HalfOpenAnomalies(a.windows), Overlaps(a), Behind(a));
    ErasedFour(Trigger(b), HalfOpenAnomalies(b.windows), Overlaps(b), Behind(b));
  }

  lemma ErasedFour(p: seq<Anomaly>, q: seq<Anomaly>, r: seq<Anomaly>, s: seq<Anomaly>)
    ensures multiset(Erased(p + q + r + s))
         == multiset(Erased(p)) + multiset(Erased(q)) + multiset(Erased(r)) + multiset(Erased(s))
  {
    ErasedConcat(p, q);
    ErasedConcat(p + q, r);
    ErasedConcat(p + q + r, s);
  }

  // --------------------------------------------------- when the node it names matters

  ghost predicate AnyOverlap(ws: seq<RollWindow>, eps: Duration) {
    exists x, y :: x in ws && y in ws && CrossNodeOverlap(x, y, eps)
  }

  // Some overlap is reported under the given node.
  ghost predicate Blamed(found: seq<Anomaly>, node: string) {
    exists a :: a in found && a.reason == OverlappingNodeWindows && a.node == node
  }

  lemma {:induction false} RowBlames(ws: seq<RollWindow>, eps: Duration, i: nat, n: nat, j: nat)
    requires i < n <= |ws|
    ensures forall a :: a in RowOverlaps(ws, eps, i, n) ==> a.node == ws[i].node
    ensures i < j < n && CrossNodeOverlap(ws[i], ws[j], eps) ==> RowOverlaps(ws, eps, i, n) != []
    decreases n
  {
    if n > i + 1 {
      RowBlames(ws, eps, i, n - 1, j);
    }
  }

  // The earlier of two overlapping windows is blamed ...
  lemma EarlierIsBlamed(in_: Input, i: nat, j: nat)
    requires i < j < |in_.windows| && CrossNodeOverlap(in_.windows[i], in_.windows[j], in_.config.jitterTolerance)
    ensures Blamed(Anomalies(in_), in_.windows[i].node)
  {
    var ws, eps := in_.windows, in_.config.jitterTolerance;
    RowBlames(ws, eps, i, |ws|, j);
    RowUniform(ws, eps, i, |ws|);
    var a := RowOverlaps(ws, eps, i, |ws|)[0];
    assert a in RowOverlaps(ws, eps, i, |ws|);
    RowsHold(ws, eps, |ws|, a);
    OnlyOverlapsBlame(in_, ws[i].node);
  }

  // ... and the window listed last never is.
  lemma LastIsNotBlamed(in_: Input)
    requires in_.windows != [] && DistinctNodes(in_.windows)
    ensures !Blamed(Overlaps(in_), in_.windows[|in_.windows| - 1].node)
  {
    var ws, eps := in_.windows, in_.config.jitterTolerance;
    var n := |ws| - 1;
    forall a | a in Overlaps(in_) ensures a.node != ws[n].node {
      RowsHold(ws, eps, |ws|, a);
      var i: nat :| i < |ws| && a in RowOverlaps(ws, eps, i, |ws|);
      RowBlames(ws, eps, i, |ws|, 0);
    }
  }

  // No other block speaks of overlaps.
  ghost predicate Silent(found: seq<Anomaly>) {
    forall a :: a in found ==> a.reason != OverlappingNodeWindows
  }

  lemma SilentConcat(a: seq<Anomaly>, b: seq<Anomaly>)
    requires Silent(a) && Silent(b)
    ensures Silent(a + b)
  {
  }

  lemma EventsSilent(in_: Input)
    ensures Silent(EventAnomalies(in_.events, in_.windows, in_.config.jitterTolerance))
  {
    EventsExact(in_.events, in_.windows, in_.config.jitterTolerance);
  }

  lemma BehindSilent(in_: Input)
    ensures Silent(Behind(in_))
  {
    var E, ws, eps := EventSet(in_.events), in_.windows, in_.config.jitterTolerance;
    var o := Attributor(ws, eps);
    var p, q := EventAnomalies(in_.events, ws, eps), SameConnAnomalies(SortedSeq(DoubleConns(E, o, |ws|)));
    EventsSilent(in_);
    SilentConcat(p, q);
    SilentConcat(p + q, RecoveryAnomalies(E, o, |ws|, in_.config));
    SilentConcat(p + q + RecoveryAnomalies(E, o, |ws|, in_.config), NewConnAnomalies(in_.events));
  }

  lemma FrontSilent(in_: Input)
    ensures Silent(Trigger(in_) + HalfOpenAnomalies(in_.windows))
  {
    HalfOpenExact(in_.windows);
    SilentConcat(PrereqAnomalies(in_.config), NoRolloutAnomalies(in_.config, in_.windows));
    SilentConcat(Trigger(in_), HalfOpenAnomalies(in_.windows));
  }

  lemma BlamedBetween(front: seq<Anomaly>, middle: seq<Anomaly>, back: seq<Anomaly>, node: string)
    requires Silent(front) && Silent(back)
    ensures Blamed(front + middle + back, node) <==> Blamed(middle, node)
  {
    assert forall a :: a in front + middle + back <==> a in front || a in middle || a in back;
  }

  lemma OnlyOverlapsBlame(in_: Input, node: string)
    ensures Blamed(Anomalies(in_), node) <==> Blamed(Overlaps(in_), node)
  {
    FourParts(in_);
    FrontSilent(in_);
    BehindSilent(in_);
    BlamedBetween(Trigger(in_) + HalfOpenAnomalies(in_.windows), Overlaps(in_), Behind(in_), node);
  }

  // Window i moved to the end.
  function MoveLast(ws: seq<RollWindow>, i: nat): seq<RollWindow>
    requires i < |ws|
  {
    ws[..i] + ws[i + 1..] + [ws[i]]
  }

  lemma MovedLast(a: Input, b: Input, i: nat)
    requires i < |a.windows| && b == a.(windows := MoveLast(a.windows, i))
    ensures Reordered(a, b)
  {
    assert a.windows == a.windows[..i] + [a.windows[i]] + a.windows[i + 1..];
  }

  lemma BlameMoves(a: Input, b: Input, i: nat, j: nat)
    requires DistinctNodes(a.windows) && i < j < |a.windows|
    requires CrossNodeOverlap(a.windows[i], a.windows[j], a.config.jitterTolerance)
    requires b == a.(windows := MoveLast(a.windows, i))
    ensures Reordered(a, b) && multiset(Outcome(a).anomalies) != multiset(Outcome(b).anomalies)
  {
    var node := a.windows[i].node;
    MovedLast(a, b, i);
    SameWindows(a, b);
    EarlierIsBlamed(a, i, j);
    LastIsNotBlamed(b);
    OnlyOverlapsBlame(b, node);
    if multiset(Anomalies(a)) == multiset(Anomalies(b)) {
      SameElements(Anomalies(a), Anomalies(b));
      assert false;
    }
  }

  lemma NoOverlapSame(a: Input, b: Input, grace: Duration)
    requires Reordered(a, b) && WatcherWindows(a.windows, grace) && !AnyOverlap(a.windows, a.config.jitterTolerance)
    ensures multiset(Outcome(a).anomalies) == multiset(Outcome(b).anomalies)
  {
    SameWindows(a, b);
    OverlapExact(a.windows, a.config.jitterTolerance);
    OverlapExact(b.windows, b.config.jitterTolerance);
    assert Overlaps(a) == [] && Overlaps(b) == [];
    FourParts(a);
    FourParts(b);
    SameTrigger(a, b);
    SameBehind(a, b, grace);
    HalfOpenPermutation(a.windows, b.windows);
  }

  // The two inputs report the same anomalies, whatever their order.
  ghost predicate SameReports(a: Input, b: Input) {
    multiset(Outcome(b).anomalies) == multiset(Outcome(a).anomalies)
  }

  lemma OverlapPlaces(ws: seq<RollWindow>, eps: Duration) returns (i: nat, j: nat)
    requires AnyOverlap(ws, eps)
    ensures i < j < |ws| && CrossNodeOverlap(ws[i], ws[j], eps)
  {
    var x, y :| x in ws && y in ws && CrossNodeOverlap(x, y, eps);
    i :| 0 <= i < |ws| && ws[i] == x;
    j :| 0 <= j < |ws| && ws[j] == y;
    if j < i {
      i, j := j, i;
    }
  }

  // A listing that shifts the blame.
  lemma OverlapMatters(a: Input) returns (b: Input)
    requires DistinctNodes(a.windows) && AnyOverlap(a.windows, a.config.jitterTolerance)
    ensures Reordered(a, b) && !SameReports(a, b)
  {
    var i, j := OverlapPlaces(a.windows, a.config.jitterTolerance);
    b := a.(windows := MoveLast(a.windows, i));
    BlameMoves(a, b, i, j);
  }

  /** For watcher windows, exactly when every listing reports the same anomalies: when none overlap. */
  lemma AnomalyOrder(a: Input, grace: Duration)
    requires WatcherWindows(a.windows, grace)
    ensures (forall b :: Reordered(a, b) ==> SameReports(a, b)) <==> !AnyOverlap(a.windows, a.config.jitterTolerance)
  {
    if AnyOverlap(a.windows, a.config.jitterTolerance) {
      var b := OverlapMatters(a);
    } else {
      forall b | Reordered(a, b) ensures SameReports(a, b) {
        NoOverlapSame(a, b, grace);
      }
    }
  }
}
