/**
 * What the windows contribute: how far their ownership of an instant can be shared, and that
 * the order in which the roll watcher lists them does not decide a verdict.
 */
module WindowTheorems {
  import opened Wrappers
  import opened Model
  import opened Collections
  import opened VerdictSpec
  import opened AttributionOrder
  import opened Diagnosis
  import opened Analyzer
  import opened EventTheorems

  // Windows as the roll watcher builds them: one per node, all of the same length.
  ghost predicate WatcherWindows(ws: seq<RollWindow>, grace: Duration) {
    && (forall i, j :: 0 <= i < j < |ws| ==> ws[i].node != ws[j].node)
    && forall w :: w in ws ==> w.graceExpiresAt == w.drainingAt + grace
  }

  ghost predicate Staggered(ws: seq<RollWindow>, eps: Duration) {
    forall a, b :: a in ws && b in ws ==> !CrossNodeOverlap(a, b, eps)
  }

  // ------------------------------------------------------ ownership arithmetic

  /** Two staggered windows share an instant only inside a band of three tolerances. */
  lemma SharedBand(ws: seq<RollWindow>, grace: Duration, eps: Duration, i: nat, j: nat, t: Time, u: Time)
    requires WatcherWindows(ws, grace) && Staggered(ws, eps) && i < |ws| && j < |ws| && i != j
    requires InWidened(t, ws[i], eps) && InWidened(t, ws[j], eps)
    requires InWidened(u, ws[i], eps) && InWidened(u, ws[j], eps)
    ensures u - t <= 3 * eps
  {
    assert ws[i] in ws && ws[j] in ws;
    assert !CrossNodeOverlap(ws[i], ws[j], eps);
  }

  /** With a grace above four tolerances no instant lies in three widened windows ... */
  lemma AtMostTwoOwners(ws: seq<RollWindow>, grace: Duration, eps: Duration, t: Time, i: nat, j: nat, k: nat)
    requires WatcherWindows(ws, grace) && Staggered(ws, eps) && grace > 4 * eps
    requires i < j < k < |ws|
    ensures !(InWidened(t, ws[i], eps) && InWidened(t, ws[j], eps) && InWidened(t, ws[k], eps))
  {
    assert ws[i] in ws && ws[j] in ws && ws[k] in ws;
    assert !CrossNodeOverlap(ws[i], ws[j], eps);
    assert !CrossNodeOverlap(ws[j], ws[k], eps);
    assert !CrossNodeOverlap(ws[i], ws[k], eps);
  }

  /** ... while with any smaller grace three can share one, as long as a widened window has an instant. */
  lemma FourTolerancesIsTight(grace: Duration, eps: Duration) returns (ws: seq<RollWindow>, t: Time)
    requires -2 * eps <= grace <= 4 * eps
    ensures |ws| == 3 && WatcherWindows(ws, grace) && Staggered(ws, eps)
    ensures forall w :: w in ws ==> InWidened(t, w, eps)
  {
    var step := if grace > eps then grace - eps else 0;
    var w0 := RollWindow("a", 0, grace, None);
    var w1 := RollWindow("b", step, step + grace, None);
    var w2 := RollWindow("c", 2 * step, 2 * step + grace, None);
    ws, t := [w0, w1, w2], 2 * step - eps;
  }

  ghost predicate SharedByThree(ws: seq<RollWindow>, eps: Duration, t: Time) {
    exists i, j, k :: 0 <= i < j < k < |ws| && InWidened(t, ws[i], eps) && InWidened(t, ws[j], eps) && InWidened(t, ws[k], eps)
  }

  /** For every grace and tolerance: three staggered windows can share an instant in this range only. */
  lemma ThreeOwnersExactly(grace: Duration, eps: Duration)
    ensures (exists ws, t :: WatcherWindows(ws, grace) && Staggered(ws, eps) && SharedByThree(ws, eps, t))
       <==> -2 * eps <= grace <= 4 * eps
  {
    if -2 * eps <= grace <= 4 * eps {
      var ws, t := FourTolerancesIsTight(grace, eps);
      assert InWidened(t, ws[0], eps) && InWidened(t, ws[1], eps) && InWidened(t, ws[2], eps);
      assert SharedByThree(ws, eps, t);
    }
    if ws, t :| WatcherWindows(ws, grace) && Staggered(ws, eps) && SharedByThree(ws, eps, t) {
      var i, j, k :| 0 <= i < j < k < |ws| && InWidened(t, ws[i], eps) && InWidened(t, ws[j], eps) && InWidened(t, ws[k], eps);
      assert ws[i] in ws;
      if grace > 4 * eps {
        AtMostTwoOwners(ws, grace, eps, t, i, j, k);
      }
    }
  }

  // ------------------------------------------------------------- window order

  ghost predicate DistinctDrains(ws: seq<RollWindow>) {
    forall i, j :: 0 <= i < j < |ws| ==> ws[i].drainingAt != ws[j].drainingAt
  }

  lemma OwnerNone(t: Time, ws: seq<RollWindow>, eps: Duration)
    ensures Owner(t, ws, eps) == -1 <==> forall w :: w in ws ==> !InWidened(t, w, eps)
    ensures Owner(t, ws, eps) != -1 ==> IsOwner(Owner(t, ws, eps), t, ws, eps)
  {
    if w :| w in ws && InWidened(t, w, eps) {
      var j :| 0 <= j < |ws| && ws[j] == w;
      OwnerExists(t, ws, eps, j);
    }
  }

  // The same window owns an instant whichever order the windows are listed in.
  lemma OwnerFollows(t: Time, ws: seq<RollWindow>, vs: seq<RollWindow>, eps: Duration)
    requires (forall w :: w in ws <==> w in vs) && DistinctDrains(ws)
    ensures Owner(t, ws, eps) == -1 <==> Owner(t, vs, eps) == -1
    ensures Owner(t, ws, eps) != -1 ==>
      && 0 <= Owner(t, ws, eps) < |ws| && 0 <= Owner(t, vs, eps) < |vs|
      && ws[Owner(t, ws, eps)] == vs[Owner(t, vs, eps)]
  {
    OwnerNone(t, ws, eps);
    OwnerNone(t, vs, eps);
    if Owner(t, ws, eps) != -1 {
      var i, j := Owner(t, ws, eps), Owner(t, vs, eps);
      assert ws[i] in vs && vs[j] in ws;
      var i' :| 0 <= i' < |vs| && vs[i'] == ws[i];
      var j' :| 0 <= j' < |ws| && ws[j'] == vs[j];
    }
  }

  // o over ws and p over vs charge every event to the same window.
  ghost predicate Corresponds(o: ConnEvent -> int, ws: seq<RollWindow>, p: ConnEvent -> int, vs: seq<RollWindow>) {
    forall e ::
      && -1 <= o(e) < |ws| && -1 <= p(e) < |vs|
      && (o(e) == -1 <==> p(e) == -1)
      && (o(e) != -1 ==> ws[o(e)] == vs[p(e)])
  }

  ghost predicate DistinctNodes(ws: seq<RollWindow>) {
    forall i, j :: 0 <= i < j < |ws| ==> ws[i].node != ws[j].node
  }

  lemma AttributorsCorrespond(ws: seq<RollWindow>, vs: seq<RollWindow>, eps: Duration)
    requires (forall w :: w in ws <==> w in vs) && DistinctDrains(ws)
    ensures Corresponds(Attributor(ws, eps), ws, Attributor(vs, eps), vs)
  {
    AttributorBounded(ws, eps);
    AttributorBounded(vs, eps);
    forall e: ConnEvent
      ensures Attributor(ws, eps)(e) == -1 <==> Attributor(vs, eps)(e) == -1
      ensures Attributor(ws, eps)(e) != -1 ==> ws[Attributor(ws, eps)(e)] == vs[Attributor(vs, eps)(e)]
    {
      OwnerFollows(e.ts, ws, vs, eps);
    }
  }

  lemma {:induction false} CountSame<T>(s: seq<T>, p: T -> bool, q: T -> bool)
    requires forall x :: x in s ==> p(x) == q(x)
    ensures Count(s, p) == Count(s, q)
  {
    if s != [] {
      assert s == s[..|s| - 1] + [s[|s| - 1]];
      CountSame(s[..|s| - 1], p, q);
    }
  }

  lemma SameGapsOf(E: set<ConnEvent>, o: ConnEvent -> int, i: int, p: ConnEvent -> int, j: int)
    requires forall e :: e in E ==> (o(e) == i <==> p(e) == j)
    ensures ResetConns(E, o, i) == ResetConns(E, p, j)
    ensures WindowGaps(E, o, i) == WindowGaps(E, p, j)
    ensures WindowUnrecovered(E, o, i) <==> WindowUnrecovered(E, p, j)
  {
    assert ResetConns(E, o, i) == ResetConns(E, p, j);
    forall c ensures Gap(E, o, i, c) == Gap(E, p, j, c) {
      assert ResetTimes(E, o, i, c) == ResetTimes(E, p, j, c);
    }
  }

  // Window i of ws and window j of vs are the same window, and so is all that is charged to it.
  lemma SameCharge(es: seq<ConnEvent>, o: ConnEvent -> int, ws: seq<RollWindow>,
                   p: ConnEvent -> int, vs: seq<RollWindow>, i: nat, j: nat)
    requires Corresponds(o, ws, p, vs) && DistinctNodes(ws) && DistinctNodes(vs)
    requires i < |ws| && j < |vs| && ws[i] == vs[j]
    ensures Attribution(es, o, ws[i], i) == Attribution(es, p, vs[j], j)
  {
    forall e ensures o(e) == i <==> p(e) == j {
      assert -1 <= o(e) < |ws| && -1 <= p(e) < |vs|;
      if o(e) != -1 { assert ws[o(e)] == vs[p(e)]; }
    }
    CountSame(es, Charged(o, i), Charged(p, j));
    SameGapsOf(EventSet(es), o, i, p, j);
  }

  // Every row of the table under one order is a row under the other.
  lemma RowsCarryOver(es: seq<ConnEvent>, o: ConnEvent -> int, ws: seq<RollWindow>,
                      p: ConnEvent -> int, vs: seq<RollWindow>)
    requires Corresponds(o, ws, p, vs) && DistinctNodes(ws) && DistinctNodes(vs)
    requires forall w :: w in ws ==> w in vs
    ensures forall x :: x in Attributions(es, o, ws) ==> x in Attributions(es, p, vs)
  {
    forall x | x in Attributions(es, o, ws) ensures x in Attributions(es, p, vs) {
      var i :| 0 <= i < |ws| && Attributions(es, o, ws)[i] == x;
      var j := Counterpart(ws, vs, i);
      SameCharge(es, o, ws, p, vs, i, j);
      assert Attributions(es, p, vs)[j] == x;
    }
  }

  // o and p sort the charged events into the same groups, whatever index each group bears.
  ghost predicate SameGroups(o: ConnEvent -> int, p: ConnEvent -> int) {
    && (forall e :: o(e) == -1 <==> p(e) == -1)
    && forall e, f :: o(e) != -1 && o(f) != -1 ==> (o(e) == o(f) <==> p(e) == p(f))
  }

  lemma CorrespondingGroups(o: ConnEvent -> int, ws: seq<RollWindow>, p: ConnEvent -> int, vs: seq<RollWindow>)
    requires Corresponds(o, ws, p, vs) && DistinctNodes(ws) && DistinctNodes(vs)
    ensures SameGroups(o, p)
  {
    forall e, f | o(e) != -1 && o(f) != -1 ensures o(e) == o(f) <==> p(e) == p(f) {
      assert ws[o(e)] == vs[p(e)] && ws[o(f)] == vs[p(f)];
    }
  }

  // Window i of one order has its group charged to window j of the other.
  lemma Renamed(E: set<ConnEvent>, o: ConnEvent -> int, n: nat, p: ConnEvent -> int, m: nat, i: nat, c: string)
      returns (j: nat)
    requires SameGroups(o, p) && Bounded(o, n) && Bounded(p, m) && c in ResetConns(E, o, i)
    ensures j < m && forall e :: o(e) == i <==> p(e) == j
    ensures ResetConns(E, o, i) == ResetConns(E, p, j)
    ensures WindowGaps(E, o, i) == WindowGaps(E, p, j)
    ensures WindowUnrecovered(E, o, i) <==> WindowUnrecovered(E, p, j)
  {
    var e :| e in E && o(e) == i && e.connId == c;
    assert -1 <= p(e) < m;
    j := p(e);
    SameGapsOf(E, o, i, p, j);
  }

  // Gaps, losses and double resets carry over from one order to the other.
  lemma GroupsCarryOver(E: set<ConnEvent>, o: ConnEvent -> int, n: nat, p: ConnEvent -> int, m: nat)
    requires SameGroups(o, p) && Bounded(o, n) && Bounded(p, m)
    ensures forall x :: x in AllGaps(E, o, n) ==> x in AllGaps(E, p, m)
    ensures AnyUnrecovered(E, o, n) ==> AnyUnrecovered(E, p, m)
    ensures forall c :: InTwoWindows(E, o, n, c) ==> InTwoWindows(E, p, m, c)
  {
    forall x | x in AllGaps(E, o, n) ensures x in AllGaps(E, p, m) {
      AllGapsExact(E, o, n, x);
      var i :| 0 <= i < n && x in WindowGaps(E, o, i);
      var c :| c in ResetConns(E, o, i) && Gap(E, o, i, c) == Some(x);
      var j := Renamed(E, o, n, p, m, i, c);
      AllGapsExact(E, p, m, x);
    }
    if i :| 0 <= i < n && WindowUnrecovered(E, o, i) {
      var c :| c in ResetConns(E, o, i) && Gap(E, o, i, c).None?;
      var j := Renamed(E, o, n, p, m, i, c);
    }
    forall c | InTwoWindows(E, o, n, c) ensures InTwoWindows(E, p, m, c) {
      TwiceCarriesOver(E, o, n, p, m, c);
    }
  }

  lemma TwiceCarriesOver(E: set<ConnEvent>, o: ConnEvent -> int, n: nat, p: ConnEvent -> int, m: nat, c: string)
    requires SameGroups(o, p) && Bounded(o, n) && Bounded(p, m) && InTwoWindows(E, o, n, c)
    ensures InTwoWindows(E, p, m, c)
  {
    var i, k :| 0 <= i < k < n && c in ResetConns(E, o, i) && c in ResetConns(E, o, k);
    var j := Renamed(E, o, n, p, m, i, c);
    var l := Renamed(E, o, n, p, m, k, c);
    var e :| e in E && o(e) == i && e.connId == c;
    assert p(e) == j != l;
    assert if j < l then j < l < m else l < j < m;
  }

  lemma Counterpart(ws: seq<RollWindow>, vs: seq<RollWindow>, i: nat) returns (j: nat)
    requires i < |ws| && ws[i] in vs
    ensures j < |vs| && vs[j] == ws[i]
  {
    j :| 0 <= j < |vs| && vs[j] == ws[i];
  }

  ghost predicate Reordered(a: Input, b: Input) {
    b == a.(windows := b.windows) && multiset(a.windows) == multiset(b.windows)
  }

  lemma SameWindows(a: Input, b: Input)
    requires Reordered(a, b)
    ensures (forall w :: w in a.windows <==> w in b.windows) && |a.windows| == |b.windows|
    ensures DistinctNodes(a.windows) ==> DistinctNodes(b.windows)
    ensures DistinctDrains(a.windows) ==> DistinctDrains(b.windows)
  {
    SameElements(a.windows, b.windows);
    assert |a.windows| == |multiset(a.windows)| == |b.windows|;
    var ws, vs := a.windows, b.windows;
    forall i, j | 0 <= i < j < |vs|
      ensures DistinctNodes(ws) ==> vs[i].node != vs[j].node
      ensures DistinctDrains(ws) ==> vs[i].drainingAt != vs[j].drainingAt
    {
      TwoPlaces(ws, vs, i, j);
    }
  }

  // What never depends on the window order.
  lemma StableFacts(a: Input, b: Input)
    requires Reordered(a, b)
    ensures var f, g := FactsOf(a), FactsOf(b);
      g == f.(twoWindows := g.twoWindows, unrecovered := g.unrecovered, overBound := g.overBound)
  {
    SameWindows(a, b);
    var eps := a.config.jitterTolerance;
    forall e: ConnEvent
      ensures Early(e.ts, a.windows, eps) <==> Early(e.ts, b.windows, eps)
      ensures Dropped(e, a.windows, eps) <==> Dropped(e, b.windows, eps)
    {
      OwnerNone(e.ts, a.windows, eps);
      OwnerNone(e.ts, b.windows, eps);
    }
  }

  ghost predicate SameTotals(E: set<ConnEvent>, o: ConnEvent -> int, p: ConnEvent -> int, n: nat, bound: Duration) {
    && AllGaps(E, o, n) == AllGaps(E, p, n)
    && (AnyUnrecovered(E, o, n) <==> AnyUnrecovered(E, p, n))
    && (OverBound(E, o, n, bound) <==> OverBound(E, p, n, bound))
    && (forall c :: InTwoWindows(E, o, n, c) <==> InTwoWindows(E, p, n, c))
  }

  lemma TotalsFollow(E: set<ConnEvent>, o: ConnEvent -> int, p: ConnEvent -> int, n: nat, bound: Duration)
    requires SameGroups(o, p) && Bounded(o, n) && Bounded(p, n)
    ensures SameTotals(E, o, p, n, bound)
  {
    assert SameGroups(p, o);
    GroupsCarryOver(E, o, n, p, n);
    GroupsCarryOver(E, p, n, o, n);
    var s, t := AllGaps(E, o, n), AllGaps(E, p, n);
    assert forall x :: x in s <==> x in t;
    assert s == t;
    OverBoundIs(E, o, n, bound);
    OverBoundIs(E, p, n, bound);
  }

  // Attributors that group alike give the same facts, and the same recovery time.
  lemma SameFacts(a: Input, b: Input)
    requires Reordered(a, b)
    requires SameGroups(Attributor(a.windows, a.config.jitterTolerance), Attributor(b.windows, a.config.jitterTolerance))
    ensures FactsOf(a) == FactsOf(b)
    ensures Outcome(a).recovery == Outcome(b).recovery
  {
    var eps := a.config.jitterTolerance;
    SameWindows(a, b);
    AttributorBounded(a.windows, eps);
    AttributorBounded(b.windows, eps);
    TotalsFollow(EventSet(a.events), Attributor(a.windows, eps), Attributor(b.windows, eps), |a.windows|,
                 a.config.recoveryBoundSeconds * SECOND);
    StableFacts(a, b);
  }

  lemma SameRows(a: Input, b: Input, o: ConnEvent -> int, p: ConnEvent -> int)
    requires Reordered(a, b) && DistinctNodes(a.windows)
    requires Corresponds(o, a.windows, p, b.windows) && Corresponds(p, b.windows, o, a.windows)
    ensures StableSort(Attributions(a.events, o, a.windows)) == StableSort(Attributions(b.events, p, b.windows))
    ensures var s, t := Attributions(a.events, o, a.windows), Attributions(b.events, p, b.windows);
      Count(s, Affected()) == Count(t, Affected()) && AffectedNodes(s) == AffectedNodes(t)
  {
    SameWindows(a, b);
    RowsCarryOver(a.events, o, a.windows, p, b.windows);
    RowsCarryOver(a.events, p, b.windows, o, a.windows);
    SameTable(Attributions(a.events, o, a.windows), Attributions(b.events, p, b.windows));
  }

  /** With pairwise different drain starts the window order changes nothing but the anomaly list. */
  lemma WindowOrderIndependence(a: Input, b: Input)
    requires Reordered(a, b) && DistinctNodes(a.windows) && DistinctDrains(a.windows)
    ensures Outcome(b) == Outcome(a).(anomalies := Outcome(b).anomalies)
  {
    var eps := a.config.jitterTolerance;
    var o, p := Attributor(a.windows, eps), Attributor(b.windows, eps);
    SameWindows(a, b);
    AttributorsCorrespond(a.windows, b.windows, eps);
    AttributorsCorrespond(b.windows, a.windows, eps);
    CorrespondingGroups(o, a.windows, p, b.windows);
    SameFacts(a, b);
    SameRows(a, b, o, p);
    VerdictExact(a);
    VerdictExact(b);
  }

  lemma SameTable(s: seq<PerNodeAttribution>, t: seq<PerNodeAttribution>)
    requires forall x :: x in s <==> x in t
    requires DistinctNames(s) && DistinctNames(t)
    ensures StableSort(s) == StableSort(t)
    ensures Count(s, Affected()) == Count(t, Affected()) && AffectedNodes(s) == AffectedNodes(t)
  {
    StableSortSorts(s);
    StableSortSorts(t);
    SortDistinct(s);
    SortDistinct(t);
    OrderedUnique(StableSort(s), StableSort(t));
    CountPermutation(s, t, Affected());
  }

  ghost predicate DistinctNames(s: seq<PerNodeAttribution>) {
    forall i, j :: 0 <= i < j < |s| ==> s[i].node != s[j].node
  }

  // Of windows of one length, those whose drains begin together own the same instants, so under
  // either order one of them owns them all.
  lemma WatcherGroups(ws: seq<RollWindow>, vs: seq<RollWindow>, grace: Duration, eps: Duration)
    requires WatcherWindows(ws, grace) && forall w :: w in ws <==> w in vs
    ensures SameGroups(Attributor(ws, eps), Attributor(vs, eps))
  {
    var o, p := Attributor(ws, eps), Attributor(vs, eps);
    forall e: ConnEvent ensures o(e) == -1 <==> p(e) == -1
             ensures o(e) != -1 ==> OwnedTogether(o(e), ws, p(e), vs) && OwnerByDrain(o(e), ws) && OwnerByDrain(p(e), vs)
    {
      if e.kind == ConnReset { SameDrain(e.ts, ws, vs, grace, eps); }
    }
    forall e, f | o(e) != -1 && o(f) != -1 ensures o(e) == o(f) <==> p(e) == p(f) {
      assert OwnedTogether(o(e), ws, p(e), vs) && OwnedTogether(o(f), ws, p(f), vs);
    }
  }

  // i is the first window of its drain start.
  ghost predicate OwnerByDrain(i: int, ws: seq<RollWindow>) {
    0 <= i < |ws| && forall j :: 0 <= j < |ws| && ws[j].drainingAt == ws[i].drainingAt ==> i <= j
  }

  ghost predicate OwnedTogether(i: int, ws: seq<RollWindow>, j: int, vs: seq<RollWindow>) {
    0 <= i < |ws| && 0 <= j < |vs| && ws[i].drainingAt == vs[j].drainingAt
  }

  lemma SameDrain(t: Time, ws: seq<RollWindow>, vs: seq<RollWindow>, grace: Duration, eps: Duration)
    requires WatcherWindows(ws, grace) && forall w :: w in ws <==> w in vs
    ensures Owner(t, ws, eps) == -1 <==> Owner(t, vs, eps) == -1
    ensures var i, j := Owner(t, ws, eps), Owner(t, vs, eps);
      i != -1 ==> OwnedTogether(i, ws, j, vs) && OwnerByDrain(i, ws) && OwnerByDrain(j, vs)
  {
    OwnerNone(t, ws, eps);
    OwnerNone(t, vs, eps);
    var i, j := Owner(t, ws, eps), Owner(t, vs, eps);
    if i != -1 {
      assert ws[i] in vs && vs[j] in ws;
      var j' :| 0 <= j' < |vs| && vs[j'] == ws[i];
      var i' :| 0 <= i' < |ws| && ws[i'] == vs[j];
      FirstOwner(i, t, ws, grace, eps);
      FirstOwner(j, t, vs, grace, eps);
    }
  }

  lemma FirstOwner(i: int, t: Time, ws: seq<RollWindow>, grace: Duration, eps: Duration)
    requires IsOwner(i, t, ws, eps) && forall w :: w in ws ==> w.graceExpiresAt == w.drainingAt + grace
    ensures OwnerByDrain(i, ws)
  {
    forall j | 0 <= j < |ws| && ws[j].drainingAt == ws[i].drainingAt ensures i <= j {
      assert ws[i] in ws && ws[j] in ws;
      assert InWidened(t, ws[j], eps);
    }
  }

  // The windows that are charged with something.
  ghost function Image(E: set<ConnEvent>, o: ConnEvent -> int): set<int> {
    set e | e in E && o(e) != -1 :: o(e)
  }

  function Below(s: set<int>, n: int): set<int> {
    set i | i in s && i < n
  }

  lemma ImageAdd(E: set<ConnEvent>, e: ConnEvent, o: ConnEvent -> int)
    ensures Image(E + {e}, o) == Image(E, o) + if o(e) != -1 then {o(e)} else {}
  {
  }

  lemma SameImage(E: set<ConnEvent>, e: ConnEvent, o: ConnEvent -> int, p: ConnEvent -> int)
    requires SameGroups(o, p) && o(e) != -1
    ensures o(e) in Image(E, o) <==> p(e) in Image(E, p)
  {
    if o(e) in Image(E, o) {
      var f :| f in E && o(f) != -1 && o(f) == o(e);
      assert p(f) == p(e) != -1;
    }
    if p(e) in Image(E, p) {
      var f :| f in E && p(f) != -1 && p(f) == p(e);
      assert o(f) == o(e);
    }
  }

  lemma {:induction false} SameImageSize(E: set<ConnEvent>, o: ConnEvent -> int, p: ConnEvent -> int)
    requires SameGroups(o, p)
    ensures |Image(E, o)| == |Image(E, p)|
  {
    if E == {} {
      assert Image(E, o) == {} && Image(E, p) == {};
    } else {
      var e := Element(E);
      var rest := E - {e};
      assert E == rest + {e};
      SameImageSize(rest, o, p);
      ImageAdd(rest, e, o);
      ImageAdd(rest, e, p);
      if o(e) != -1 {
        SameImage(rest, e, o, p);
      }
    }
  }

  lemma {:induction false} AffectedBelow(es: seq<ConnEvent>, o: ConnEvent -> int, ws: seq<RollWindow>)
    requires forall e :: -1 <= o(e)
    ensures Count(Attributions(es, o, ws), Affected()) == |Below(Image(EventSet(es), o), |ws|)|
  {
    var E := EventSet(es);
    if ws == [] {
      assert Below(Image(E, o), 0) == {};
    } else {
      var n := |ws| - 1;
      AffectedBelow(es, o, ws[..n]);
      assert Attributions(es, o, ws)[..n] == Attributions(es, o, ws[..n]);
      var fewer, more := Below(Image(E, o), n), Below(Image(E, o), n + 1);
      var conns := ResetConns(E, o, n);
      if n in Image(E, o) {
        var e :| e in E && o(e) == n;
        assert e.connId in conns;
        assert more == fewer + {n};
      } else {
        assert conns == {};
        assert more == fewer;
      }
    }
  }

  lemma AffectedNodesSnoc(ps: seq<PerNodeAttribution>, p: PerNodeAttribution)
    ensures AffectedNodes(ps + [p]) == AffectedNodes(ps) + if Affected()(p) then {p.node} else {}
  {
  }

  lemma {:induction false} NodesAreRows(ps: seq<PerNodeAttribution>)
    requires DistinctNames(ps)
    ensures |AffectedNodes(ps)| == Count(ps, Affected())
  {
    if ps != [] {
      var n := |ps| - 1;
      NodesAreRows(ps[..n]);
      assert ps == ps[..n] + [ps[n]];
      AffectedNodesSnoc(ps[..n], ps[n]);
      assert ps[n].node !in AffectedNodes(ps[..n]);
    }
  }

  lemma AffectedIsImage(in_: Input)
    requires DistinctNodes(in_.windows)
    ensures var size := |Image(EventSet(in_.events), Attributor(in_.windows, in_.config.jitterTolerance))|;
      Outcome(in_).affectedNodeWindows == size && Outcome(in_).distinctNodesAffected == size
  {
    var E, o := EventSet(in_.events), Attributor(in_.windows, in_.config.jitterTolerance);
    AttributorBounded(in_.windows, in_.config.jitterTolerance);
    AffectedBelow(in_.events, o, in_.windows);
    assert Below(Image(E, o), |in_.windows|) == Image(E, o);
    NodesAreRows(Attributions(in_.events, o, in_.windows));
  }

  /**
   * For windows as the roll watcher lists them every listing order gives the same result, equal
   * drain starts and overlaps included, but for the table and the anomaly list. TableOrder below
   * says when the table is the same too; the list is the subject of ListingOrder.
   */
  lemma VerdictIgnoresWindowOrder(a: Input, b: Input, grace: Duration)
    requires Reordered(a, b) && WatcherWindows(a.windows, grace)
    ensures Outcome(b) == Outcome(a).(perNodeAttribution := Outcome(b).perNodeAttribution, anomalies := Outcome(b).anomalies)
  {
    var eps := a.config.jitterTolerance;
    SameWindows(a, b);
    WatcherGroups(a.windows, b.windows, grace, eps);
    SameFacts(a, b);
    AffectedIsImage(a);
    AffectedIsImage(b);
    SameImageSize(EventSet(a.events), Attributor(a.windows, eps), Attributor(b.windows, eps));
    VerdictExact(a);
    VerdictExact(b);
  }

  // ------------------------------------------------- when the table depends on the order

  // Some reset belongs to a window whose drain began together with another window's.
  ghost predicate Contested(a: Input) {
    exists e, j :: e in a.events && ContestedBy(a.windows, Attributor(a.windows, a.config.jitterTolerance)(e), j)
  }

  ghost predicate ContestedBy(ws: seq<RollWindow>, i: int, j: int) {
    0 <= i < |ws| && 0 <= j < |ws| && i != j && ws[j].drainingAt == ws[i].drainingAt
  }

  // o, silent about what is not in E.
  ghost function Restrict(o: ConnEvent -> int, E: set<ConnEvent>): ConnEvent -> int {
    (e: ConnEvent) => if e in E then o(e) else -1
  }

  lemma LocalAttribution(es: seq<ConnEvent>, o: ConnEvent -> int, p: ConnEvent -> int, w: RollWindow, i: nat)
    requires forall e :: e in es ==> o(e) == p(e)
    ensures Attribution(es, o, w, i) == Attribution(es, p, w, i)
  {
    CountSame(es, Charged(o, i), Charged(p, i));
    SameGapsOf(EventSet(es), o, i, p, i);
  }

  lemma LocalAttributions(es: seq<ConnEvent>, o: ConnEvent -> int, ws: seq<RollWindow>)
    ensures Attributions(es, Restrict(o, EventSet(es)), ws) == Attributions(es, o, ws)
  {
    forall i: nat | i < |ws| ensures Attribution(es, Restrict(o, EventSet(es)), ws[i], i) == Attribution(es, o, ws[i], i) {
      LocalAttribution(es, o, Restrict(o, EventSet(es)), ws[i], i);
    }
  }

  lemma UncontestedCorrespond(a: Input, b: Input, grace: Duration)
    requires Reordered(a, b) && WatcherWindows(a.windows, grace) && !Contested(a)
    ensures var E, eps := EventSet(a.events), a.config.jitterTolerance;
      var o, p := Restrict(Attributor(a.windows, eps), E), Restrict(Attributor(b.windows, eps), E);
      Corresponds(o, a.windows, p, b.windows) && Corresponds(p, b.windows, o, a.windows)
  {
    var ws, vs, eps := a.windows, b.windows, a.config.jitterTolerance;
    SameWindows(a, b);
    AttributorBounded(ws, eps);
    AttributorBounded(vs, eps);
    forall e | e in a.events
      ensures Attributor(ws, eps)(e) == -1 <==> Attributor(vs, eps)(e) == -1
      ensures Attributor(ws, eps)(e) != -1 ==> ws[Attributor(ws, eps)(e)] == vs[Attributor(vs, eps)(e)]
    {
      var i, j := Attributor(ws, eps)(e), Attributor(vs, eps)(e);
      if e.kind == ConnReset {
        SameDrain(e.ts, ws, vs, grace, eps);
      }
      if i != -1 {
        assert vs[j] in ws;
        var k :| 0 <= k < |ws| && ws[k] == vs[j];
        assert !ContestedBy(ws, i, k);
      }
    }
  }

  lemma UncontestedTable(a: Input, b: Input, grace: Duration)
    requires Reordered(a, b) && WatcherWindows(a.windows, grace) && !Contested(a)
    ensures Outcome(b).perNodeAttribution == Outcome(a).perNodeAttribution
  {
    var E, eps := EventSet(a.events), a.config.jitterTolerance;
    var o, p := Attributor(a.windows, eps), Attributor(b.windows, eps);
    UncontestedCorrespond(a, b, grace);
    SameRows(a, b, Restrict(o, E), Restrict(p, E));
    LocalAttributions(a.events, o, a.windows);
    LocalAttributions(b.events, p, b.windows);
  }

  // The attribution table before it is sorted.
  ghost function TableOf(a: Input): (ps: seq<PerNodeAttribution>)
    ensures ps == Attributions(a.events, Attributor(a.windows, a.config.jitterTolerance), a.windows)
    ensures forall p :: p in Outcome(a).perNodeAttribution <==> p in ps
  {
    var ps := Attributions(a.events, Attributor(a.windows, a.config.jitterTolerance), a.windows);
    SortKeeps(ps);
    ps
  }

  // Windows i and j change places.
  function Swap(ws: seq<RollWindow>, i: nat, j: nat): seq<RollWindow>
    requires i < |ws| && j < |ws|
  {
    ws[i := ws[j]][j := ws[i]]
  }

  // A window listed after another with the same drain start is charged with nothing.
  lemma SecondOwnsNothing(es: seq<ConnEvent>, ws: seq<RollWindow>, grace: Duration, eps: Duration, i: nat, j: nat)
    requires WatcherWindows(ws, grace) && i < j < |ws| && ws[i].drainingAt == ws[j].drainingAt
    ensures Count(es, Charged(Attributor(ws, eps), j)) == 0
  {
    forall e | e in es ensures Attributor(ws, eps)(e) != j {
      if Attributor(ws, eps)(e) == j {
        OwnedNotEarly(e, ws, eps);
        FirstOwner(j, e.ts, ws, grace, eps);
      }
    }
    CountZero(es, Charged(Attributor(ws, eps), j));
  }

  /**
   * The window listed first is charged with every reset of its drain start, so when it is charged
   * with any, swapping it with another such window changes the table.
   */
  lemma EqualDrainsMatter(a: Input, b: Input, grace: Duration, e: ConnEvent, i: nat, j: nat)
    requires WatcherWindows(a.windows, grace) && ContestedBy(a.windows, i, j)
    requires e in a.events && Attributor(a.windows, a.config.jitterTolerance)(e) == i
    requires b == a.(windows := Swap(a.windows, i, j))
    ensures Reordered(a, b) && Outcome(a).perNodeAttribution != Outcome(b).perNodeAttribution
  {
    var ws, eps := a.windows, a.config.jitterTolerance;
    OwnedNotEarly(e, ws, eps);
    FirstOwner(i, e.ts, ws, grace, eps);
    assert i < j;
    assert Reordered(a, b);
    SameWindows(a, b);
    CountZero(a.events, Charged(Attributor(ws, eps), i));
    SecondOwnsNothing(b.events, b.windows, grace, eps, i, j);
    TablesDiffer(a, b, i, j);
  }

  lemma TablesDiffer(a: Input, b: Input, i: nat, j: nat)
    requires i < |a.windows| && j < |b.windows| && a.windows[i] == b.windows[j] && DistinctNodes(b.windows)
    requires Count(a.events, Charged(Attributor(a.windows, a.config.jitterTolerance), i))
          != Count(b.events, Charged(Attributor(b.windows, b.config.jitterTolerance), j))
    ensures Outcome(a).perNodeAttribution != Outcome(b).perNodeAttribution
  {
    RowsDiffer(Outcome(a).perNodeAttribution, Outcome(b).perNodeAttribution, TableOf(a), TableOf(b), i, j);
  }

  lemma RowsDiffer(s: seq<PerNodeAttribution>, t: seq<PerNodeAttribution>,
                   ps: seq<PerNodeAttribution>, qs: seq<PerNodeAttribution>, i: nat, j: nat)
    requires (forall p :: p in s <==> p in ps) && (forall p :: p in t <==> p in qs)
    requires i < |ps| && j < |qs| && ps[i].node == qs[j].node && DistinctNames(qs)
    requires ps[i].rawResets != qs[j].rawResets
    ensures s != t
  {
    assert ps[i] in s && ps[i] !in t;
  }

  /** For watcher windows, exactly when the table is the same for every listing order. */
  lemma TableOrder(a: Input, grace: Duration)
    requires WatcherWindows(a.windows, grace)
    ensures (forall b :: Reordered(a, b) ==> Outcome(b).perNodeAttribution == Outcome(a).perNodeAttribution)
       <==> !Contested(a)
  {
    if Contested(a) {
      var e, j :| e in a.events && ContestedBy(a.windows, Attributor(a.windows, a.config.jitterTolerance)(e), j);
      var i := Attributor(a.windows, a.config.jitterTolerance)(e);
      EqualDrainsMatter(a, a.(windows := Swap(a.windows, i, j)), grace, e, i, j);
    } else {
      forall b | Reordered(a, b) ensures Outcome(b).perNodeAttribution == Outcome(a).perNodeAttribution {
        UncontestedTable(a, b, grace);
      }
    }
  }
}
