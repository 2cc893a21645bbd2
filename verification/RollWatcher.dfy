/** The informer's view of a roll: from pod notifications to one window per drained node. */
module RollWatcher {
  import opened Wrappers
  import opened Model
  import opened Collections
  import opened VerdictSpec
  import opened Diagnosis
  import opened WindowTheorems
  import opened ListingOrder
  import EventTheorems

  // ready: is this the PodReady condition; holds: is its status True. A zero transition time is None.
  datatype Condition = Condition(ready: bool, holds: bool, lastTransition: Option<Time>)

  datatype Pod = Pod(uid: string, node: string, deletion: Option<Time>, conditions: seq<Condition>)

  // What an informer hands over: a pod, a tombstone that may hold one, or something else.
  datatype Notice = PodNotice(pod: Pod) | Tombstone(last: Option<Pod>) | Foreign

  datatype Seen = Seen(notice: Notice, now: Time)

  function PodOf(n: Notice): Option<Pod> {
    match n
    case PodNotice(p) => Some(p)
    case Tombstone(p) => p
    case Foreign => None
  }

  function PodReady(cs: seq<Condition>): bool {
    if cs == [] then false
    else if cs[0].ready then cs[0].holds
    else PodReady(cs[1..])
  }

  function ReadyConditionTime(cs: seq<Condition>): Option<Time> {
    if cs == [] then None
    else if cs[0].ready && cs[0].holds then cs[0].lastTransition
    else ReadyConditionTime(cs[1..])
  }

  // Condition k is the first of type Ready.
  ghost predicate FirstReady(cs: seq<Condition>, k: int) {
    0 <= k < |cs| && cs[k].ready && forall j :: 0 <= j < k ==> !cs[j].ready
  }

  // Condition k is the first of type Ready that holds.
  ghost predicate FirstTrue(cs: seq<Condition>, k: int) {
    0 <= k < |cs| && cs[k].ready && cs[k].holds && forall j :: 0 <= j < k ==> !(cs[j].ready && cs[j].holds)
  }

  /** A pod is ready when its first condition of type Ready holds, wherever that stands in the list ... */
  lemma {:induction false} PodReadyMeans(cs: seq<Condition>)
    ensures PodReady(cs) <==> exists k :: FirstReady(cs, k) && cs[k].holds
  {
    if cs != [] {
      if cs[0].ready {
        assert FirstReady(cs, 0);
      } else {
        PodReadyMeans(cs[1..]);
        assert forall k :: FirstReady(cs[1..], k) ==> FirstReady(cs, k + 1);
        assert forall k :: FirstReady(cs, k) ==> FirstReady(cs[1..], k - 1);
      }
    }
  }

  /** ... and since the last change of the first such condition that holds. */
  lemma {:induction false} ReadyConditionTimeMeans(cs: seq<Condition>)
    ensures forall k :: FirstTrue(cs, k) ==> ReadyConditionTime(cs) == cs[k].lastTransition
    ensures (forall k :: !FirstTrue(cs, k)) ==> ReadyConditionTime(cs) == None
  {
    if cs != [] {
      if cs[0].ready && cs[0].holds {
        assert FirstTrue(cs, 0);
      } else {
        ReadyConditionTimeMeans(cs[1..]);
        assert forall k :: FirstTrue(cs[1..], k) ==> FirstTrue(cs, k + 1);
        assert forall k :: FirstTrue(cs, k) ==> FirstTrue(cs[1..], k - 1);
      }
    }
  }

  /** Conditions of other types change neither, wherever they stand. */
  lemma {:induction false} OtherConditions(cs: seq<Condition>, k: nat, c: Condition)
    requires k <= |cs| && !c.ready
    ensures PodReady(cs[..k] + [c] + cs[k..]) == PodReady(cs)
    ensures ReadyConditionTime(cs[..k] + [c] + cs[k..]) == ReadyConditionTime(cs)
  {
    var more := cs[..k] + [c] + cs[k..];
    if k == 0 {
      assert more[1..] == cs;
    } else {
      assert more[1..] == cs[1..][..k - 1] + [c] + cs[1..][k - 1..];
      OtherConditions(cs[1..], k - 1, c);
    }
  }

  // The node a notification concerns; None when it is ignored.
  function NodeOf(s: Seen): Option<string> {
    match PodOf(s.notice)
    case None => None
    case Some(p) => if p.node == "" then None else Some(p.node)
  }

  predicate Draining(s: Seen) {
    NodeOf(s).Some? && PodOf(s.notice).value.deletion.Some?
  }

  function Uid(s: Seen): string
    requires Draining(s)
  {
    PodOf(s.notice).value.uid
  }

  function DeletedAt(s: Seen): Time
    requires Draining(s)
  {
    PodOf(s.notice).value.deletion.value
  }

  predicate Ready(s: Seen) {
    NodeOf(s).Some? && PodOf(s.notice).value.deletion.None? && PodReady(PodOf(s.notice).value.conditions)
  }

  function ReadyTime(s: Seen): Time
    requires Ready(s)
  {
    var t := ReadyConditionTime(PodOf(s.notice).value.conditions);
    if t.Some? then t.value else s.now
  }

  /** What a notification of pod p says: of a drain, of a ready pod, or of nothing. */
  lemma NoticeMeans(s: Seen, p: Pod)
    requires s.notice == PodNotice(p) || s.notice == Tombstone(Some(p))
    ensures NodeOf(s) == if p.node == "" then None else Some(p.node)
    ensures Draining(s) <==> p.node != "" && p.deletion.Some?
    ensures Draining(s) ==> Uid(s) == p.uid && Some(DeletedAt(s)) == p.deletion
    ensures Ready(s) <==> p.node != "" && p.deletion == None && exists k :: FirstReady(p.conditions, k) && p.conditions[k].holds
    ensures Ready(s) ==> forall k :: FirstReady(p.conditions, k) ==>
              ReadyTime(s) == if p.conditions[k].lastTransition == None then s.now else p.conditions[k].lastTransition.value
  {
    assert PodOf(s.notice) == Some(p);
    PodReadyMeans(p.conditions);
    ReadyConditionTimeMeans(p.conditions);
    if Ready(s) {
      var k :| FirstReady(p.conditions, k) && p.conditions[k].holds;
      assert FirstTrue(p.conditions, k);
      assert forall j :: FirstReady(p.conditions, j) ==> !(j < k) && !(k < j);
    }
  }

  /** An object that is no pod, and holds none, says nothing. */
  lemma OtherNoticeMeans(s: Seen)
    requires s.notice == Foreign || s.notice == Tombstone(None)
    ensures NodeOf(s) == None && !Draining(s) && !Ready(s)
  {
    assert PodOf(s.notice) == None;
  }

  // -------------------------------------------------- meaning of a history

  // Notification k is the first to show its pod draining.
  ghost predicate FirstDrain(h: seq<Seen>, k: int) {
    0 <= k < |h| && Draining(h[k]) && forall j :: 0 <= j < k && Draining(h[j]) ==> Uid(h[j]) != Uid(h[k])
  }

  ghost function DrainTimes(h: seq<Seen>, node: string): set<Time> {
    set k | 0 <= k < |h| && FirstDrain(h, k) && NodeOf(h[k]) == Some(node) :: DeletedAt(h[k])
  }

  ghost function ReadyTimes(h: seq<Seen>, node: string): set<Time> {
    set k | 0 <= k < |h| && Ready(h[k]) && NodeOf(h[k]) == Some(node) :: ReadyTime(h[k])
  }

  ghost function DrainedUids(h: seq<Seen>): set<string> {
    set k | 0 <= k < |h| && Draining(h[k]) :: Uid(h[k])
  }

  lemma DrainTimesSnoc(h: seq<Seen>, s: Seen, node: string)
    ensures DrainTimes(h + [s], node) == DrainTimes(h, node)
      + if Draining(s) && Uid(s) !in DrainedUids(h) && NodeOf(s) == Some(node) then {DeletedAt(s)} else {}
  {
    var h' := h + [s];
    assert forall j :: 0 <= j < |h| ==> h'[j] == h[j];
    forall k | 0 <= k < |h| ensures FirstDrain(h', k) <==> FirstDrain(h, k) {
      assert forall j :: 0 <= j <= k ==> h'[j] == h[j];
    }
    assert FirstDrain(h', |h|) <==> Draining(s) && Uid(s) !in DrainedUids(h) by {
      assert forall j :: 0 <= j < |h| ==> h'[j] == h[j];
    }
    forall t | t in DrainTimes(h, node) ensures t in DrainTimes(h', node) {
      var k :| 0 <= k < |h| && FirstDrain(h, k) && NodeOf(h[k]) == Some(node) && DeletedAt(h[k]) == t;
      assert h'[k] == h[k];
    }
    forall t | t in DrainTimes(h', node) && t !in DrainTimes(h, node)
      ensures Draining(s) && Uid(s) !in DrainedUids(h) && NodeOf(s) == Some(node) && t == DeletedAt(s)
    {
      var k :| 0 <= k < |h'| && FirstDrain(h', k) && NodeOf(h'[k]) == Some(node) && DeletedAt(h'[k]) == t;
    }
    if Draining(s) && Uid(s) !in DrainedUids(h) && NodeOf(s) == Some(node) {
      assert h'[|h|] == s;
    }
  }

  lemma ReadyTimesSnoc(h: seq<Seen>, s: Seen, node: string)
    ensures ReadyTimes(h + [s], node) == ReadyTimes(h, node)
      + if Ready(s) && NodeOf(s) == Some(node) then {ReadyTime(s)} else {}
  {
    var h' := h + [s];
    assert h'[|h|] == s && forall j :: 0 <= j < |h| ==> h'[j] == h[j];
  }

  lemma DrainedUidsSnoc(h: seq<Seen>, s: Seen)
    ensures DrainedUids(h + [s]) == DrainedUids(h) + if Draining(s) then {Uid(s)} else {}
  {
    var h' := h + [s];
    assert h'[|h|] == s && forall j :: 0 <= j < |h| ==> h'[j] == h[j];
  }

  ghost predicate DrainMatches(m: map<string, Time>, h: seq<Seen>) {
    forall node :: (node in m <==> DrainTimes(h, node) != {}) && (node in m ==> m[node] == Min(DrainTimes(h, node)))
  }

  ghost predicate ReadyMatches(m: map<string, Time>, h: seq<Seen>) {
    forall node :: (node in m <==> ReadyTimes(h, node) != {}) && (node in m ==> m[node] == Max(ReadyTimes(h, node)))
  }

  lemma MinAdd(s: set<int>, t: int)
    ensures Min(s + {t}) == if s == {} || t < Min(s) then t else Min(s)
  {
    var m := if s == {} || t < Min(s) then t else Min(s);
    assert m in s + {t};
  }

  lemma MaxAdd(s: set<int>, t: int)
    ensures Max(s + {t}) == if s == {} || t > Max(s) then t else Max(s)
  {
    var m := if s == {} || t > Max(s) then t else Max(s);
    assert m in s + {t};
  }

  function EarliestAt(m: map<string, Time>, node: string, d: Time): map<string, Time> {
    if node !in m || d < m[node] then m[node := d] else m
  }

  function LatestAt(m: map<string, Time>, node: string, r: Time): map<string, Time> {
    if node !in m || r > m[node] then m[node := r] else m
  }

  lemma DrainStep(m: map<string, Time>, h: seq<Seen>, s: Seen)
    requires DrainMatches(m, h)
    ensures DrainMatches(
      if Draining(s) && Uid(s) !in DrainedUids(h) then EarliestAt(m, NodeOf(s).value, DeletedAt(s)) else m, h + [s])
  {
    var m' := if Draining(s) && Uid(s) !in DrainedUids(h) then EarliestAt(m, NodeOf(s).value, DeletedAt(s)) else m;
    forall node ensures node in m' <==> DrainTimes(h + [s], node) != {}
                ensures node in m' ==> m'[node] == Min(DrainTimes(h + [s], node))
    {
      DrainTimesSnoc(h, s, node);
      if Draining(s) {
        MinAdd(DrainTimes(h, node), DeletedAt(s));
      }
    }
  }

  lemma ReadyStep(m: map<string, Time>, h: seq<Seen>, s: Seen)
    requires ReadyMatches(m, h)
    ensures ReadyMatches(if Ready(s) then LatestAt(m, NodeOf(s).value, ReadyTime(s)) else m, h + [s])
  {
    var m' := if Ready(s) then LatestAt(m, NodeOf(s).value, ReadyTime(s)) else m;
    forall node ensures node in m' <==> ReadyTimes(h + [s], node) != {}
                ensures node in m' ==> m'[node] == Max(ReadyTimes(h + [s], node))
    {
      ReadyTimesSnoc(h, s, node);
      if Ready(s) {
        MaxAdd(ReadyTimes(h, node), ReadyTime(s));
      }
    }
  }

  // The windows that a history stands for, in any order.
  ghost predicate Snapshot(h: seq<Seen>, grace: Duration, ws: seq<RollWindow>) {
    && DistinctNodes(ws)
    && (forall w :: w in ws ==> DrainTimes(h, w.node) != {} && w == WindowFor(h, grace, w.node))
    && forall node :: DrainTimes(h, node) != {} ==> WindowFor(h, grace, node) in ws
  }

  ghost function WindowFor(h: seq<Seen>, grace: Duration, node: string): RollWindow
    requires DrainTimes(h, node) != {}
  {
    var d := Min(DrainTimes(h, node));
    RollWindow(node, d, d + grace, if ReadyTimes(h, node) == {} then None else Some(Max(ReadyTimes(h, node))))
  }

  // out lists exactly the windows of the given nodes, read off the maps.
  ghost predicate Lists(out: seq<RollWindow>, nodes: set<string>, drain: map<string, Time>, ready: map<string, Time>, grace: Duration) {
    && DistinctNodes(out)
    && (forall w :: w in out ==> w.node in nodes && w.node in drain && w == WindowOf(drain, ready, grace, w.node))
    && forall node :: node in nodes && node in drain ==> WindowOf(drain, ready, grace, node) in out
  }

  function WindowOf(drain: map<string, Time>, ready: map<string, Time>, grace: Duration, node: string): RollWindow
    requires node in drain
  {
    RollWindow(node, drain[node], drain[node] + grace, if node in ready then Some(ready[node]) else None)
  }

  lemma ListsOneMore(out: seq<RollWindow>, nodes: set<string>, node: string,
                     drain: map<string, Time>, ready: map<string, Time>, grace: Duration)
    requires Lists(out, nodes, drain, ready, grace) && node in drain && node !in nodes
    ensures Lists(out + [WindowOf(drain, ready, grace, node)], nodes + {node}, drain, ready, grace)
  {
    assert forall i :: 0 <= i < |out| ==> out[i] in out;
  }

  lemma ListsIsSnapshot(h: seq<Seen>, out: seq<RollWindow>, drain: map<string, Time>, ready: map<string, Time>, grace: Duration)
    requires DrainMatches(drain, h) && ReadyMatches(ready, h) && Lists(out, drain.Keys, drain, ready, grace)
    ensures Snapshot(h, grace, out)
  {
    forall node | node in drain ensures WindowFor(h, grace, node) == WindowOf(drain, ready, grace, node) {}
  }

  method ListWindows(drain: map<string, Time>, ready: map<string, Time>, grace: Duration) returns (out: seq<RollWindow>)
    ensures Lists(out, drain.Keys, drain, ready, grace)
  {
    out := [];
    var rest := drain.Keys;
    while rest != {}
      invariant rest <= drain.Keys
      invariant Lists(out, drain.Keys - rest, drain, ready, grace)
      decreases rest
    {
      var node :| node in rest;
      ListsOneMore(out, drain.Keys - rest, node, drain, ready, grace);
      assert drain.Keys - (rest - {node}) == drain.Keys - rest + {node};
      out := out + [WindowOf(drain, ready, grace, node)];
      rest := rest - {node};
    }
    assert drain.Keys - rest == drain.Keys;
  }

  class Watcher {
    const grace: Duration
    var drain: map<string, Time>
    var ready: map<string, Time>
    var seenUID: set<string>
    ghost var history: seq<Seen>

    ghost predicate Valid()
      reads this
    {
      DrainMatches(drain, history) && ReadyMatches(ready, history) && seenUID == DrainedUids(history)
    }

    constructor (grace: Duration)
      ensures Valid() && history == [] && this.grace == grace
    {
      this.grace := grace;
      drain, ready, seenUID := map[], map[], {};
      history := [];
    }

    /** One notification: the maps keep standing for the whole history. */
    method OnPod(n: Notice, now: Time)
      requires Valid()
      modifies this
      ensures Valid() && history == old(history) + [Seen(n, now)]
    {
      ghost var s := Seen(n, now);
      DrainedUidsSnoc(history, s);
      DrainStep(drain, history, s);
      ReadyStep(ready, history, s);
      history := history + [s];
      var found := PodOf(n);
      if found.None? {
        return;
      }
      var pod := found.value;
      var node := pod.node;
      if node == "" {
        return;
      }
      if pod.deletion.Some? && pod.uid !in seenUID {
        seenUID := seenUID + {pod.uid};
        drain := EarliestAt(drain, node, pod.deletion.value);
      }
      if pod.deletion.None? && PodReady(pod.conditions) {
        var c := ReadyConditionTime(pod.conditions);
        ready := LatestAt(ready, node, if c.Some? then c.value else now);
      }
    }

    /** One window per drained node; the map is ranged over in any order. */
    method Windows() returns (out: seq<RollWindow>)
      requires Valid()
      ensures Snapshot(history, grace, out)
    {
      out := ListWindows(drain, ready, grace);
      ListsIsSnapshot(history, out, drain, ready, grace);
    }
  }

  // ------------------------------------------------------------- consequences

  // Notification k is the first to show its pod draining, from the given node.
  ghost predicate DrainOf(h: seq<Seen>, node: string, k: int) {
    FirstDrain(h, k) && NodeOf(h[k]) == Some(node)
  }

  ghost predicate Drained(h: seq<Seen>, node: string) {
    exists k :: DrainOf(h, node, k)
  }

  ghost predicate HasWindow(ws: seq<RollWindow>, node: string) {
    exists w :: w in ws && w.node == node
  }

  ghost predicate ReadyOf(h: seq<Seen>, node: string, k: int) {
    0 <= k < |h| && Ready(h[k]) && NodeOf(h[k]) == Some(node)
  }

  /**
   * The windows of a history: one per drained node, from the earliest of its pods' drains for the
   * grace, and ready at the latest ready time that the node has shown, if any.
   */
  lemma SnapshotMeans(h: seq<Seen>, grace: Duration, ws: seq<RollWindow>)
    requires Snapshot(h, grace, ws)
    ensures forall node :: Drained(h, node) <==> HasWindow(ws, node)
    ensures forall i, j :: 0 <= i < j < |ws| ==> ws[i].node != ws[j].node
    ensures forall w :: w in ws ==>
      && (exists k :: DrainOf(h, w.node, k) && DeletedAt(h[k]) == w.drainingAt)
      && (forall k :: DrainOf(h, w.node, k) ==> w.drainingAt <= DeletedAt(h[k]))
      && w.graceExpiresAt == w.drainingAt + grace
      && (w.readyAt == None <==> forall k :: !ReadyOf(h, w.node, k))
      && (w.readyAt.Some? ==>
            && (exists k :: ReadyOf(h, w.node, k) && ReadyTime(h[k]) == w.readyAt.value)
            && forall k :: ReadyOf(h, w.node, k) ==> ReadyTime(h[k]) <= w.readyAt.value)
  {
    forall node, k | DrainOf(h, node, k) ensures DeletedAt(h[k]) in DrainTimes(h, node) {}
    forall node, k | ReadyOf(h, node, k) ensures ReadyTime(h[k]) in ReadyTimes(h, node) {}
    forall node | DrainTimes(h, node) != {} ensures exists k :: DrainOf(h, node, k) && DeletedAt(h[k]) == Min(DrainTimes(h, node)) {}
    forall node | ReadyTimes(h, node) != {} ensures exists k :: ReadyOf(h, node, k) && ReadyTime(h[k]) == Max(ReadyTimes(h, node)) {}
    forall node | Drained(h, node) ensures HasWindow(ws, node) { assert WindowFor(h, grace, node) in ws; }
  }

  /** Snapshots have the shape the analyzer's order independence asks for ... */
  lemma SnapshotShape(h: seq<Seen>, grace: Duration, ws: seq<RollWindow>)
    requires Snapshot(h, grace, ws)
    ensures WatcherWindows(ws, grace)
  {
  }

  lemma {:induction false} SameSetSameMultiset(ws: seq<RollWindow>, vs: seq<RollWindow>)
    requires DistinctNodes(ws) && DistinctNodes(vs) && forall w :: w in ws <==> w in vs
    ensures multiset(ws) == multiset(vs)
  {
    forall w ensures multiset(ws)[w] == multiset(vs)[w] {
      AtMostOnce(ws, w);
      AtMostOnce(vs, w);
    }
  }

  lemma {:induction false} AtMostOnce(ws: seq<RollWindow>, w: RollWindow)
    requires DistinctNodes(ws)
    ensures multiset(ws)[w] == if w in ws then 1 else 0
  {
    if ws != [] {
      var n := |ws| - 1;
      AtMostOnce(ws[..n], w);
      assert ws == ws[..n] + [ws[n]];
    }
  }

  /** ... so the order in which Windows() happens to list them cannot change a verdict. */
  lemma SnapshotOrderIrrelevant(h: seq<Seen>, a: Input, b: Input, grace: Duration)
    requires b == a.(windows := b.windows)
    requires Snapshot(h, grace, a.windows) && Snapshot(h, grace, b.windows)
    ensures Outcome(b) == Outcome(a).(perNodeAttribution := Outcome(b).perNodeAttribution, anomalies := Outcome(b).anomalies)
    ensures multiset(Erased(Outcome(a).anomalies)) == multiset(Erased(Outcome(b).anomalies))
  {
    SnapshotShape(h, grace, a.windows);
    SameSetSameMultiset(a.windows, b.windows);
    VerdictIgnoresWindowOrder(a, b, grace);
    AnomaliesIgnoreWindowOrder(a, b, grace);
  }

  // --------------------------------------------------- whose readiness it is

  function PodUid(s: Seen): string
    requires NodeOf(s).Some?
  {
    PodOf(s.notice).value.uid
  }

  // Ready times shown on a node by pods that the history also shows draining, or by the others.
  ghost function ReadyTimesBy(h: seq<Seen>, node: string, drained: bool): set<Time> {
    set k | 0 <= k < |h| && Ready(h[k]) && NodeOf(h[k]) == Some(node) && (PodUid(h[k]) in DrainedUids(h)) == drained
      :: ReadyTime(h[k])
  }

  ghost predicate ShownReady(h: seq<Seen>, node: string, drained: bool) {
    ReadyTimesBy(h, node, drained) != {}
  }

  ghost function Latest(times: set<Time>): Option<Time> {
    if times == {} then None else Some(Max(times))
  }

  lemma ReadySplit(h: seq<Seen>, node: string)
    ensures ReadyTimes(h, node) == ReadyTimesBy(h, node, true) + ReadyTimesBy(h, node, false)
  {
    forall k | 0 <= k < |h| && Ready(h[k]) && NodeOf(h[k]) == Some(node)
      ensures ReadyTime(h[k]) in ReadyTimesBy(h, node, true) + ReadyTimesBy(h, node, false)
    {
      assert ReadyTime(h[k]) in ReadyTimesBy(h, node, PodUid(h[k]) in DrainedUids(h));
    }
  }

  /**
   * A ready marker stands for a replacement pod exactly when the node never shows a pod Ready
   * that it also drains without showing a replacement Ready too.
   */
  lemma ReplacementReady(h: seq<Seen>, grace: Duration, node: string)
    requires DrainTimes(h, node) != {}
    ensures (WindowFor(h, grace, node).readyAt.Some? <==> ShownReady(h, node, false))
       <==> (ShownReady(h, node, true) ==> ShownReady(h, node, false))
  {
    ReadySplit(h, node);
  }

  /** ... and its time is the replacements' latest exactly when no drained pod was Ready later than all of them. */
  lemma ReplacementTime(h: seq<Seen>, grace: Duration, node: string)
    requires DrainTimes(h, node) != {}
    ensures WindowFor(h, grace, node).readyAt == Latest(ReadyTimesBy(h, node, false))
       <==> forall t :: t in ReadyTimesBy(h, node, true) ==> exists u :: u in ReadyTimesBy(h, node, false) && t <= u
  {
    ReadySplit(h, node);
    LatestOfUnion(ReadyTimesBy(h, node, true), ReadyTimesBy(h, node, false));
  }

  lemma LatestOfUnion(s: set<Time>, t: set<Time>)
    ensures Latest(s + t) == Latest(t) <==> forall x :: x in s ==> exists y :: y in t && x <= y
  {
    if s + t != {} {
      var m := Max(s + t);
      assert m in s || m in t;
      if t != {} {
        assert Max(t) in s + t;
      }
    }
  }

  // A drained node on which no pod at all was shown Ready ...
  ghost predicate NeverReady(h: seq<Seen>) {
    exists node :: DrainTimes(h, node) != {} && ReadyTimes(h, node) == {}
  }

  // ... and one on which no replacement was.
  ghost predicate Unreplaced(h: seq<Seen>) {
    exists node :: DrainTimes(h, node) != {} && !ShownReady(h, node, false)
  }

  /** The half-open error over the watcher's windows: some drained node never showed any Ready pod. */
  lemma HalfOpenMeans(h: seq<Seen>, grace: Duration, in_: Input)
    requires Snapshot(h, grace, in_.windows)
    ensures Violates(in_, HalfOpenWindow) <==> NeverReady(h)
  {
    if node :| DrainTimes(h, node) != {} && ReadyTimes(h, node) == {} {
      assert WindowFor(h, grace, node) in in_.windows;
    }
  }

  /** It means what it says, a roll whose new pod never went Ready, exactly when no old pod's readiness hides one. */
  lemma HalfOpenPromise(h: seq<Seen>, grace: Duration, in_: Input)
    requires Snapshot(h, grace, in_.windows)
    ensures (Violates(in_, HalfOpenWindow) <==> Unreplaced(h)) <==> (Unreplaced(h) ==> NeverReady(h))
  {
    HalfOpenMeans(h, grace, in_);
    if node :| DrainTimes(h, node) != {} && ReadyTimes(h, node) == {} {
      ReadySplit(h, node);
      assert !ShownReady(h, node, false);
    }
  }

  // A Ready pod, then the same pod terminating; its replacement is never seen.
  function OldPodOnly(uid: string, node: string, t: Time, d: Time, now: Time): seq<Seen> {
    [Seen(PodNotice(Pod(uid, node, None, [Condition(true, true, Some(t))])), now),
     Seen(PodNotice(Pod(uid, node, Some(d), [])), now)]
  }

  lemma OldPodTimes(uid: string, node: string, t: Time, d: Time, now: Time, n: string)
    requires node != ""
    ensures var h := OldPodOnly(uid, node, t, d, now);
      && DrainTimes(h, n) == (if n == node then {d} else {})
      && ReadyTimes(h, n) == (if n == node then {t} else {})
      && ReadyTimesBy(h, n, false) == {}
  {
    var h := OldPodOnly(uid, node, t, d, now);
    var none: seq<Seen> := [];
    assert h == (none + [h[0]]) + [h[1]];
    DrainTimesSnoc(none, h[0], n);
    DrainTimesSnoc(none + [h[0]], h[1], n);
    DrainedUidsSnoc(none, h[0]);
    DrainedUidsSnoc(none + [h[0]], h[1]);
    ReadyTimesSnoc(none, h[0], n);
    ReadyTimesSnoc(none + [h[0]], h[1], n);
    assert DrainedUids(h) == {uid};
  }

  /**
   * The promise fails: for any pod, node and times this history has a window with the old pod's
   * ready time, and a run over it passes though no replacement was ever shown Ready.
   */
  lemma OldPodPasses(uid: string, node: string, t: Time, d: Time, now: Time, grace: Duration, trigger: TriggerInfo, cfg: Config)
    requires node != "" && cfg.triggerPrereqError == ""
    ensures var h := OldPodOnly(uid, node, t, d, now);
      var in_ := Input(trigger, [], [RollWindow(node, d, d + grace, Some(t))], cfg);
      && Snapshot(h, grace, in_.windows) && Unreplaced(h)
      && Outcome(in_).verdict == PASS
  {
    OldPodSnapshot(uid, node, t, d, now, grace);
    var w := RollWindow(node, d, d + grace, Some(t));
    EventTheorems.NoEvent(Input(trigger, [], [w], cfg), w);
  }

  lemma OldPodSnapshot(uid: string, node: string, t: Time, d: Time, now: Time, grace: Duration)
    requires node != ""
    ensures var h := OldPodOnly(uid, node, t, d, now);
      Snapshot(h, grace, [RollWindow(node, d, d + grace, Some(t))]) && Unreplaced(h)
  {
    var h := OldPodOnly(uid, node, t, d, now);
    forall n ensures DrainTimes(h, n) == (if n == node then {d} else {})
             ensures ReadyTimes(h, n) == (if n == node then {t} else {}) && ReadyTimesBy(h, n, false) == {}
    {
      OldPodTimes(uid, node, t, d, now, n);
    }
    assert !ShownReady(h, node, false);
    assert Min({d}) == d && Max({t}) == t;
    assert WindowFor(h, grace, node) in [RollWindow(node, d, d + grace, Some(t))];
  }

  // ------------------------------------------------- redelivery and reordering

  ghost predicate Delivered(h: seq<Seen>, n: Notice) {
    exists k :: 0 <= k < |h| && h[k].notice == n
  }

  ghost predicate SameNotices(h: seq<Seen>, g: seq<Seen>) {
    forall n :: Delivered(h, n) <==> Delivered(g, n)
  }

  // One pod keeps its node and its deletion time.
  ghost predicate SameDeletion(s: Seen, t: Seen) {
    Draining(s) && Draining(t) && Uid(s) == Uid(t) ==> NodeOf(s) == NodeOf(t) && DeletedAt(s) == DeletedAt(t)
  }

  ghost predicate StableDeletions(h: seq<Seen>, g: seq<Seen>) {
    forall s, t :: (s in h || s in g) && (t in h || t in g) ==> SameDeletion(s, t)
  }

  ghost predicate ReadyTimesKnown(h: seq<Seen>) {
    forall s :: s in h && Ready(s) ==> ReadyConditionTime(PodOf(s.notice).value.conditions).Some?
  }

  // The first notification that shows a draining pod.
  lemma {:induction false} FirstOf(h: seq<Seen>, k: nat) returns (f: nat)
    requires k < |h| && Draining(h[k])
    ensures f <= k && FirstDrain(h, f) && Uid(h[f]) == Uid(h[k])
  {
    if FirstDrain(h, k) {
      f := k;
    } else {
      var j :| 0 <= j < k && Draining(h[j]) && Uid(h[j]) == Uid(h[k]);
      f := FirstOf(h, j);
    }
  }

  lemma DrainCarriesOver(h: seq<Seen>, g: seq<Seen>, node: string, k: nat)
    requires k < |h| && Delivered(g, h[k].notice) && StableDeletions(h, g)
    requires Draining(h[k]) && NodeOf(h[k]) == Some(node)
    ensures DeletedAt(h[k]) in DrainTimes(g, node)
  {
    var j :| 0 <= j < |g| && g[j].notice == h[k].notice;
    var f := FirstOf(g, j);
    assert SameDeletion(h[k], g[f]);
  }

  lemma DrainsCarryOver(h: seq<Seen>, g: seq<Seen>, node: string)
    requires SameNotices(h, g) && StableDeletions(h, g)
    ensures DrainTimes(h, node) <= DrainTimes(g, node)
  {
    forall t | t in DrainTimes(h, node) ensures t in DrainTimes(g, node) {
      var k :| 0 <= k < |h| && FirstDrain(h, k) && NodeOf(h[k]) == Some(node) && DeletedAt(h[k]) == t;
      assert Delivered(h, h[k].notice);
      DrainCarriesOver(h, g, node, k);
    }
  }

  lemma ReadiesCarryOver(h: seq<Seen>, g: seq<Seen>, node: string)
    requires SameNotices(h, g) && ReadyTimesKnown(h)
    ensures ReadyTimes(h, node) <= ReadyTimes(g, node)
  {
    forall t | t in ReadyTimes(h, node) ensures t in ReadyTimes(g, node) {
      var k :| 0 <= k < |h| && Ready(h[k]) && NodeOf(h[k]) == Some(node) && ReadyTime(h[k]) == t;
      assert h[k] in h && Delivered(h, h[k].notice);
      var j :| 0 <= j < |g| && g[j].notice == h[k].notice;
      assert ReadyTime(g[j]) == t;
    }
  }

  // h and g stand for the same windows, node by node.
  ghost predicate SameView(h: seq<Seen>, g: seq<Seen>, grace: Duration) {
    forall node :: (DrainTimes(h, node) != {} <==> DrainTimes(g, node) != {})
                && (DrainTimes(h, node) != {} ==> WindowFor(h, grace, node) == WindowFor(g, grace, node))
  }

  lemma SnapshotCarriesOver(h: seq<Seen>, g: seq<Seen>, grace: Duration, ws: seq<RollWindow>)
    requires SameView(h, g, grace)
    ensures Snapshot(h, grace, ws) ==> Snapshot(g, grace, ws)
  {
  }

  lemma Mirror(h: seq<Seen>, g: seq<Seen>)
    requires SameNotices(h, g) && StableDeletions(h, g)
    ensures SameNotices(g, h) && StableDeletions(g, h)
  {
  }

  lemma SameTimes(h: seq<Seen>, g: seq<Seen>, node: string)
    requires SameNotices(h, g) && StableDeletions(h, g) && ReadyTimesKnown(h) && ReadyTimesKnown(g)
    ensures DrainTimes(h, node) == DrainTimes(g, node) && ReadyTimes(h, node) == ReadyTimes(g, node)
  {
    Mirror(h, g);
    DrainsCarryOver(h, g, node);
    DrainsCarryOver(g, h, node);
    ReadiesCarryOver(h, g, node);
    ReadiesCarryOver(g, h, node);
  }

  /**
   * Informers may repeat and reorder: two histories that deliver the same notifications stand
   * for the same windows, as long as no pod's deletion time moves and ready times are known.
   */
  lemma RedeliveryIrrelevant(h: seq<Seen>, g: seq<Seen>, grace: Duration, ws: seq<RollWindow>)
    requires SameNotices(h, g) && StableDeletions(h, g) && ReadyTimesKnown(h) && ReadyTimesKnown(g)
    ensures Snapshot(h, grace, ws) <==> Snapshot(g, grace, ws)
  {
    forall node ensures DrainTimes(h, node) == DrainTimes(g, node) && ReadyTimes(h, node) == ReadyTimes(g, node) {
      SameTimes(h, g, node);
    }
    SnapshotCarriesOver(h, g, grace, ws);
    SnapshotCarriesOver(g, h, grace, ws);
  }

  // ------------------------------------------------- when a deletion time moves

  // Every deletion time shown on a node, by whichever notification.
  ghost function ShownTimes(h: seq<Seen>, node: string): set<Time> {
    set k | 0 <= k < |h| && Draining(h[k]) && NodeOf(h[k]) == Some(node) :: DeletedAt(h[k])
  }

  // ... and by those of one pod.
  ghost function TimesOf(h: seq<Seen>, uid: string, node: string): set<Time> {
    set k | 0 <= k < |h| && Draining(h[k]) && Uid(h[k]) == uid && NodeOf(h[k]) == Some(node) :: DeletedAt(h[k])
  }

  // A pod already seen draining is shown again, now with a time before all those first shown.
  ghost predicate Revised(h: seq<Seen>, node: string, k: int) {
    && 0 <= k < |h| && Draining(h[k]) && NodeOf(h[k]) == Some(node) && !FirstDrain(h, k)
    && forall t :: t in DrainTimes(h, node) ==> DeletedAt(h[k]) < t
  }

  lemma DrainsAreShown(h: seq<Seen>, node: string)
    ensures DrainTimes(h, node) <= ShownTimes(h, node)
  {
  }

  /** A node's drain is the earliest deletion time ever shown on it exactly when none was revised. */
  lemma EarliestShown(h: seq<Seen>, node: string)
    requires ShownTimes(h, node) != {}
    ensures DrainTimes(h, node) != {} && Min(DrainTimes(h, node)) == Min(ShownTimes(h, node))
       <==> !exists k :: Revised(h, node, k)
  {
    DrainsAreShown(h, node);
    var m := Min(ShownTimes(h, node));
    var k :| 0 <= k < |h| && Draining(h[k]) && NodeOf(h[k]) == Some(node) && DeletedAt(h[k]) == m;
    if FirstDrain(h, k) {
      assert m in DrainTimes(h, node);
    } else if !Revised(h, node, k) {
      var t :| t in DrainTimes(h, node) && t <= m;
    }
    if k' :| Revised(h, node, k') {
      assert DeletedAt(h[k']) in ShownTimes(h, node);
    }
  }

  ghost predicate OneNodePerPod(h: seq<Seen>) {
    forall s, t :: s in h && t in h && Draining(s) && Draining(t) && Uid(s) == Uid(t) ==> NodeOf(s) == NodeOf(t)
  }

  // Some pod shows the node's earliest deletion time and no other.
  ghost predicate Steady(h: seq<Seen>, node: string)
    requires ShownTimes(h, node) != {}
  {
    exists uid :: TimesOf(h, uid, node) == {Min(ShownTimes(h, node))}
  }

  lemma SteadyDrain(h: seq<Seen>, node: string)
    requires OneNodePerPod(h) && ShownTimes(h, node) != {} && Steady(h, node)
    ensures DrainTimes(h, node) != {} && Min(DrainTimes(h, node)) == Min(ShownTimes(h, node))
  {
    DrainsAreShown(h, node);
    var m := Min(ShownTimes(h, node));
    var uid :| TimesOf(h, uid, node) == {m};
    assert m in TimesOf(h, uid, node);
    var k :| 0 <= k < |h| && Draining(h[k]) && Uid(h[k]) == uid && NodeOf(h[k]) == Some(node);
    var f := FirstOf(h, k);
    assert h[f] in h && h[k] in h;
    assert DeletedAt(h[f]) in TimesOf(h, uid, node);
    assert m in DrainTimes(h, node);
  }

  lemma ShownCarriesOver(h: seq<Seen>, g: seq<Seen>, uid: string, node: string)
    requires SameNotices(h, g)
    ensures ShownTimes(h, node) <= ShownTimes(g, node) && TimesOf(h, uid, node) <= TimesOf(g, uid, node)
  {
    forall k | 0 <= k < |h| && Draining(h[k]) && NodeOf(h[k]) == Some(node)
      ensures DeletedAt(h[k]) in ShownTimes(g, node)
      ensures Uid(h[k]) == uid ==> DeletedAt(h[k]) in TimesOf(g, uid, node)
    {
      assert Delivered(h, h[k].notice);
      var j :| 0 <= j < |g| && g[j].notice == h[k].notice;
      assert Draining(g[j]) && NodeOf(g[j]) == Some(node) && Uid(g[j]) == Uid(h[k]);
    }
  }

  lemma SameShown(h: seq<Seen>, g: seq<Seen>, uid: string, node: string)
    requires SameNotices(h, g)
    ensures ShownTimes(h, node) == ShownTimes(g, node) && TimesOf(h, uid, node) == TimesOf(g, uid, node)
  {
    ShownCarriesOver(h, g, uid, node);
    ShownCarriesOver(g, h, uid, node);
  }

  lemma SameDiscipline(h: seq<Seen>, g: seq<Seen>)
    requires SameNotices(h, g) && OneNodePerPod(h) && ReadyTimesKnown(h)
    ensures OneNodePerPod(g) && ReadyTimesKnown(g)
  {
    forall s | s in g ensures exists t :: t in h && t.notice == s.notice {
      assert Delivered(g, s.notice);
      var j :| 0 <= j < |h| && h[j].notice == s.notice;
      assert h[j] in h;
    }
  }

  // A drained node is one that some pod was shown draining on.
  lemma ShownMeansDrained(h: seq<Seen>, node: string)
    requires OneNodePerPod(h)
    ensures ShownTimes(h, node) != {} <==> DrainTimes(h, node) != {}
  {
    DrainsAreShown(h, node);
    if t: int :| t in ShownTimes(h, node) {
      var k :| 0 <= k < |h| && Draining(h[k]) && NodeOf(h[k]) == Some(node);
      var f := FirstOf(h, k);
      assert h[f] in h && h[k] in h;
      assert DeletedAt(h[f]) in DrainTimes(h, node);
    }
  }

  lemma SteadyView(h: seq<Seen>, g: seq<Seen>, grace: Duration)
    requires SameNotices(h, g) && OneNodePerPod(h) && ReadyTimesKnown(h)
    requires forall node :: ShownTimes(h, node) != {} ==> Steady(h, node)
    ensures SameView(h, g, grace)
  {
    SameDiscipline(h, g);
    forall node
      ensures DrainTimes(h, node) != {} <==> DrainTimes(g, node) != {}
      ensures DrainTimes(h, node) != {} ==> WindowFor(h, grace, node) == WindowFor(g, grace, node)
    {
      SteadyNode(h, g, grace, node);
    }
  }

  lemma SteadyNode(h: seq<Seen>, g: seq<Seen>, grace: Duration, node: string)
    requires SameNotices(h, g) && OneNodePerPod(h) && OneNodePerPod(g) && ReadyTimesKnown(h) && ReadyTimesKnown(g)
    requires ShownTimes(h, node) != {} ==> Steady(h, node)
    ensures DrainTimes(h, node) != {} <==> DrainTimes(g, node) != {}
    ensures DrainTimes(h, node) != {} ==> WindowFor(h, grace, node) == WindowFor(g, grace, node)
  {
    ShownMeansDrained(h, node);
    ShownMeansDrained(g, node);
    SameShown(h, g, "", node);
    if ShownTimes(h, node) != {} {
      SteadyBoth(h, g, node);
      ReadiesCarryOver(h, g, node);
      ReadiesCarryOver(g, h, node);
      assert ReadyTimes(h, node) == ReadyTimes(g, node);
    }
  }

  lemma SteadyBoth(h: seq<Seen>, g: seq<Seen>, node: string)
    requires SameNotices(h, g) && OneNodePerPod(h) && OneNodePerPod(g)
    requires ShownTimes(h, node) != {} && Steady(h, node)
    ensures DrainTimes(h, node) != {} && DrainTimes(g, node) != {}
    ensures Min(DrainTimes(h, node)) == Min(DrainTimes(g, node))
  {
    var uid :| TimesOf(h, uid, node) == {Min(ShownTimes(h, node))};
    SameShown(h, g, uid, node);
    SteadyDrain(h, node);
    SteadyDrain(g, node);
  }

  // The notifications that show a node draining at t.
  ghost function Showing(node: string, t: Time): Seen -> bool {
    (s: Seen) => Draining(s) && NodeOf(s) == Some(node) && DeletedAt(s) == t
  }

  ghost function NotShowing(node: string, t: Time): Seen -> bool {
    (s: Seen) => !(Draining(s) && NodeOf(s) == Some(node) && DeletedAt(s) == t)
  }

  lemma Redelivered(h: seq<Seen>, pick: Seen -> bool)
    ensures SameNotices(h, Filter(h, pick) + h)
  {
    FilterElements(h, pick);
    var g := Filter(h, pick) + h;
    forall n ensures Delivered(h, n) <==> Delivered(g, n) {
      if Delivered(h, n) {
        var k :| 0 <= k < |h| && h[k].notice == n;
        assert g[|Filter(h, pick)| + k] == h[k];
      }
      if Delivered(g, n) {
        var k :| 0 <= k < |g| && g[k].notice == n;
        assert g[k] in h;
      }
    }
  }

  // Delivering a node's earliest time first makes it the node's drain.
  lemma EarliestFirst(h: seq<Seen>, node: string)
    requires ShownTimes(h, node) != {}
    ensures var m := Min(ShownTimes(h, node));
      m in DrainTimes(Filter(h, Showing(node, m)) + h, node)
  {
    var m := Min(ShownTimes(h, node));
    var first := Filter(h, Showing(node, m));
    FilterElements(h, Showing(node, m));
    var k :| 0 <= k < |h| && Draining(h[k]) && NodeOf(h[k]) == Some(node) && DeletedAt(h[k]) == m;
    assert h[k] in first;
    assert first[0] in first && (first + h)[0] == first[0];
    assert FirstDrain(first + h, 0);
  }

  // Delivering it last hides it, unless some pod shows no other.
  lemma EarliestLast(h: seq<Seen>, node: string)
    requires ShownTimes(h, node) != {} && !Steady(h, node)
    ensures var m := Min(ShownTimes(h, node));
      m !in DrainTimes(Filter(h, NotShowing(node, m)) + h, node)
  {
    var m := Min(ShownTimes(h, node));
    var rest := Filter(h, NotShowing(node, m));
    var g := rest + h;
    FilterElements(h, NotShowing(node, m));
    if m in DrainTimes(g, node) {
      var k :| 0 <= k < |g| && FirstDrain(g, k) && NodeOf(g[k]) == Some(node) && DeletedAt(g[k]) == m;
      assert g[k] !in rest by { assert !NotShowing(node, m)(g[k]); }
      assert k >= |rest|;
      var j := OtherFirst(h, Uid(g[k]), node, m, k - |rest|);
      assert false;
    }
  }

  lemma OtherFirst(h: seq<Seen>, uid: string, node: string, m: Time, k: nat) returns (j: nat)
    requires k < |h| && Draining(h[k]) && Uid(h[k]) == uid && NodeOf(h[k]) == Some(node) && DeletedAt(h[k]) == m
    requires TimesOf(h, uid, node) != {m}
    ensures var rest := Filter(h, NotShowing(node, m));
      j < |rest| && Draining((rest + h)[j]) && Uid((rest + h)[j]) == uid
  {
    var rest := Filter(h, NotShowing(node, m));
    FilterElements(h, NotShowing(node, m));
    assert m in TimesOf(h, uid, node);
    var t :| t in TimesOf(h, uid, node) && t != m;
    var i :| 0 <= i < |h| && Draining(h[i]) && Uid(h[i]) == uid && NodeOf(h[i]) == Some(node) && DeletedAt(h[i]) == t;
    assert NotShowing(node, m)(h[i]);
    j :| 0 <= j < |rest| && rest[j] == h[i];
  }

  lemma {:induction false} WindowsOver(h: seq<Seen>, grace: Duration, nodes: set<string>) returns (ws: seq<RollWindow>)
    requires forall n :: n in nodes ==> DrainTimes(h, n) != {}
    ensures DistinctNodes(ws) && (forall w :: w in ws ==> w.node in nodes && w == WindowFor(h, grace, w.node))
    ensures forall n :: n in nodes ==> WindowFor(h, grace, n) in ws
  {
    ws := [];
    if nodes != {} {
      var n :| n in nodes;
      var rest := WindowsOver(h, grace, nodes - {n});
      assert forall i :: 0 <= i < |rest| ==> rest[i] in rest;
      ws := rest + [WindowFor(h, grace, n)];
    }
  }

  // Every history has a snapshot.
  lemma SnapshotExists(h: seq<Seen>, grace: Duration) returns (ws: seq<RollWindow>)
    ensures Snapshot(h, grace, ws)
  {
    var nodes := set k | 0 <= k < |h| && FirstDrain(h, k) :: NodeOf(h[k]).value;
    forall n ensures n in nodes <==> DrainTimes(h, n) != {} {
      if n in nodes {
        var k :| 0 <= k < |h| && FirstDrain(h, k) && NodeOf(h[k]).value == n;
        assert DeletedAt(h[k]) in DrainTimes(h, n);
      }
      if t: int :| t in DrainTimes(h, n) {
        var k :| 0 <= k < |h| && FirstDrain(h, k) && NodeOf(h[k]) == Some(n);
        assert n in nodes;
      }
    }
    ws := WindowsOver(h, grace, nodes);
  }

  ghost predicate OrderIrrelevant(h: seq<Seen>, grace: Duration) {
    forall g, ws :: SameNotices(h, g) ==> (Snapshot(h, grace, ws) <==> Snapshot(g, grace, ws))
  }

  lemma TwoDeliveries(h: seq<Seen>, g: seq<Seen>, g': seq<Seen>, grace: Duration, node: string, m: Time)
    requires SameNotices(h, g) && SameNotices(h, g')
    requires m in DrainTimes(g, node) && m !in DrainTimes(g', node) && forall t :: t in DrainTimes(g, node) ==> m <= t
    ensures !OrderIrrelevant(h, grace)
  {
    if OrderIrrelevant(h, grace) {
      var ws := SnapshotExists(h, grace);
      assert Snapshot(g, grace, ws) && Snapshot(g', grace, ws);
      OneWindowEach(g, g', grace, ws, node);
      assert false;
    }
  }

  lemma UnsteadyMatters(h: seq<Seen>, grace: Duration, node: string)
    requires ShownTimes(h, node) != {} && !Steady(h, node)
    ensures !OrderIrrelevant(h, grace)
  {
    var m := Min(ShownTimes(h, node));
    var g, g' := Filter(h, Showing(node, m)) + h, Filter(h, NotShowing(node, m)) + h;
    Redelivered(h, Showing(node, m));
    Redelivered(h, NotShowing(node, m));
    EarliestFirst(h, node);
    EarliestLast(h, node);
    DrainsAreShown(g, node);
    SameShown(h, g, "", node);
    TwoDeliveries(h, g, g', grace, node, m);
  }

  lemma OneWindowEach(g: seq<Seen>, g': seq<Seen>, grace: Duration, ws: seq<RollWindow>, node: string)
    requires Snapshot(g, grace, ws) && Snapshot(g', grace, ws) && DrainTimes(g, node) != {}
    ensures DrainTimes(g', node) != {} && Min(DrainTimes(g, node)) == Min(DrainTimes(g', node))
  {
    assert WindowFor(g, grace, node) in ws;
    assert WindowFor(g', grace, node) in ws;
  }

  /**
   * Exactly when the order and number of deliveries never matter, for pods that keep their node
   * and ready times that are known: on each drained node some pod shows the earliest deletion
   * time and no other.
   */
  lemma DeliveryOrder(h: seq<Seen>, grace: Duration)
    requires OneNodePerPod(h) && ReadyTimesKnown(h)
    ensures OrderIrrelevant(h, grace) <==> forall node :: ShownTimes(h, node) != {} ==> Steady(h, node)
  {
    if node :| ShownTimes(h, node) != {} && !Steady(h, node) {
      UnsteadyMatters(h, grace, node);
    } else {
      forall g, ws | SameNotices(h, g) ensures Snapshot(h, grace, ws) <==> Snapshot(g, grace, ws) {
        SteadyView(h, g, grace);
        SnapshotCarriesOver(h, g, grace, ws);
        SnapshotCarriesOver(g, h, grace, ws);
      }
    }
  }

  /** A pod whose deletion time moves is what the stability condition shuts out: order then matters. */
  lemma MovedDeletionMatters(uid: string, node: string, early: Time, late: Time, now: Time)
    requires node != "" && early < late
    ensures var a, b := Seen(PodNotice(Pod(uid, node, Some(early), [])), now), Seen(PodNotice(Pod(uid, node, Some(late), [])), now);
      && DrainTimes([a, b], node) == {early} && DrainTimes([b, a], node) == {late}
  {
    var a, b := Seen(PodNotice(Pod(uid, node, Some(early), [])), now), Seen(PodNotice(Pod(uid, node, Some(late), [])), now);
    var none: seq<Seen> := [];
    assert [a, b] == (none + [a]) + [b] && [b, a] == (none + [b]) + [a];
    DrainTimesSnoc(none, a, node);
    DrainTimesSnoc(none, b, node);
    DrainTimesSnoc(none + [a], b, node);
    DrainTimesSnoc(none + [b], a, node);
    DrainedUidsSnoc(none, a);
    DrainedUidsSnoc(none, b);
  }
}
