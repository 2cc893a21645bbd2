/** The attribution table is a stable sort by node, then by drain start. */
module AttributionOrder {
  import opened Model
  import opened Collections
  import opened VerdictSpec

  ghost predicate Ordered(s: seq<PerNodeAttribution>) {
    forall i, j :: 0 <= i < j < |s| ==> !Before(s[j], s[i])
  }

  predicate SameKey(a: PerNodeAttribution, b: PerNodeAttribution) {
    a.node == b.node && a.window.drainingAt == b.window.drainingAt
  }

  function Select(s: seq<PerNodeAttribution>, x: PerNodeAttribution): seq<PerNodeAttribution> {
    if s == [] then []
    else Select(s[..|s| - 1], x) + if SameKey(x, s[|s| - 1]) then [s[|s| - 1]] else []
  }

  lemma BeforeTotal(a: PerNodeAttribution, b: PerNodeAttribution)
    ensures !(Before(a, b) && Before(b, a))
    ensures !Before(a, b) && !Before(b, a) <==> SameKey(a, b)
  {
    StrTrichotomy(a.node, b.node);
  }

  lemma BeforeNegTrans(a: PerNodeAttribution, b: PerNodeAttribution, c: PerNodeAttribution)
    requires !Before(b, a) && !Before(c, b)
    ensures !Before(c, a)
  {
    StrTrichotomy(a.node, b.node);
    StrTrichotomy(b.node, c.node);
    StrTrichotomy(a.node, c.node);
    if Before(c, a) && StrLess(a.node, b.node) && StrLess(b.node, c.node) {
      StrTrans(a.node, b.node, c.node);
    }
  }

  lemma {:induction false} InsertSorts(s: seq<PerNodeAttribution>, x: PerNodeAttribution)
    requires Ordered(s)
    ensures Ordered(InsertAttribution(s, x))
    ensures multiset(InsertAttribution(s, x)) == multiset(s) + multiset{x}
  {
    if s != [] {
      var n := |s| - 1;
      assert s == s[..n] + [s[n]];
      if Before(x, s[n]) {
        InsertSorts(s[..n], x);
        var r := InsertAttribution(s[..n], x);
        BeforeTotal(x, s[n]);
        forall i | 0 <= i < |r| ensures !Before(s[n], r[i]) {
          assert r[i] in multiset(s[..n]) + multiset{x};
        }
      } else {
        forall i | 0 <= i < n ensures !Before(x, s[i]) { BeforeNegTrans(s[i], s[n], x); }
      }
    }
  }

  lemma {:induction false} InsertStable(s: seq<PerNodeAttribution>, x: PerNodeAttribution, k: PerNodeAttribution)
    ensures Ordered(s) ==> Select(InsertAttribution(s, x), k) == Select(s, k) + if SameKey(k, x) then [x] else []
  {
    if s != [] && Before(x, s[|s| - 1]) && Ordered(s) {
      InsertStable(s[..|s| - 1], x, k);
      BeforeTotal(x, s[|s| - 1]);
    }
  }

  /** Sorted, a permutation of the input, and equal keys keep their input order. */
  lemma {:induction false} StableSortSorts(s: seq<PerNodeAttribution>)
    ensures Ordered(StableSort(s)) && multiset(StableSort(s)) == multiset(s)
    ensures forall k :: Select(StableSort(s), k) == Select(s, k)
  {
    if s != [] {
      var n := |s| - 1;
      StableSortSorts(s[..n]);
      assert s == s[..n] + [s[n]];
      InsertSorts(StableSort(s[..n]), s[n]);
      forall k ensures Select(StableSort(s), k) == Select(s, k) {
        InsertStable(StableSort(s[..n]), s[n], k);
      }
    }
  }

  lemma SortKeeps(s: seq<PerNodeAttribution>)
    ensures forall p :: p in StableSort(s) <==> p in s
  {
    StableSortSorts(s);
    SameElements(StableSort(s), s);
  }

  ghost predicate DistinctKeys(s: seq<PerNodeAttribution>) {
    forall i, j :: 0 <= i < j < |s| ==> !SameKey(s[i], s[j])
  }

  lemma {:induction false} InsertDistinct(s: seq<PerNodeAttribution>, x: PerNodeAttribution)
    requires DistinctKeys(s) && forall y :: y in s ==> !SameKey(y, x)
    ensures DistinctKeys(InsertAttribution(s, x))
    ensures forall y :: y in InsertAttribution(s, x) <==> y in s || y == x
  {
    if s != [] {
      var n := |s| - 1;
      assert s == s[..n] + [s[n]];
      assert forall y :: y in s[..n] ==> !SameKey(y, s[n]);
      if Before(x, s[n]) {
        InsertDistinct(s[..n], x);
        var r := InsertAttribution(s[..n], x);
        forall i | 0 <= i < |r| ensures !SameKey(r[i], s[n]) { assert r[i] in r; }
      }
    }
  }

  lemma {:induction false} SortDistinct(s: seq<PerNodeAttribution>)
    requires DistinctKeys(s)
    ensures DistinctKeys(StableSort(s))
    ensures forall y :: y in StableSort(s) <==> y in s
  {
    if s != [] {
      var n := |s| - 1;
      assert s == s[..n] + [s[n]];
      SortDistinct(s[..n]);
      InsertDistinct(StableSort(s[..n]), s[n]);
    }
  }

  lemma LastsAgree(s: seq<PerNodeAttribution>, t: seq<PerNodeAttribution>)
    requires s != [] && t != [] && s[|s| - 1] in t && t[|t| - 1] in s
    requires Ordered(s) && Ordered(t) && DistinctKeys(s)
    ensures s[|s| - 1] == t[|t| - 1]
  {
    var x, y := s[|s| - 1], t[|t| - 1];
    var i :| 0 <= i < |t| && t[i] == x;
    var j :| 0 <= j < |s| && s[j] == y;
    BeforeTotal(x, y);
  }

  /** With distinct keys the sorted order is the only one: the input order leaves no trace. */
  lemma {:induction false} OrderedUnique(s: seq<PerNodeAttribution>, t: seq<PerNodeAttribution>)
    requires Ordered(s) && Ordered(t) && DistinctKeys(s) && DistinctKeys(t)
    requires forall x :: x in s <==> x in t
    ensures s == t
  {
    if s == [] || t == [] {
      FirstIsIn(s);
      FirstIsIn(t);
    } else {
      var m, n := |s| - 1, |t| - 1;
      assert s[m] in t && t[n] in s;
      LastsAgree(s, t);
      assert s == s[..m] + [s[m]] && t == t[..n] + [t[n]];
      forall x ensures x in s[..m] <==> x in t[..n] {
        assert x in s[..m] <==> x in s && x != s[m];
        assert x in t[..n] <==> x in t && x != t[n];
      }
      OrderedUnique(s[..m], t[..n]);
    }
  }
}
