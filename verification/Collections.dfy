/** Counting, extremes and sorting: the library routines the harness leans on. */
module Collections {

  // ---------------------------------------------------------------- extremes

  lemma Element<T>(s: set<T>) returns (x: T)
    requires s != {}
    ensures x in s
  {
    x :| x in s;
  }

  lemma {:induction false} MaxExists(s: set<int>)
    requires s != {}
    ensures exists m :: m in s && forall x :: x in s ==> x <= m
  {
    var y := Element(s);
    if s != {y} {
      var rest := s - {y};
      assert s == rest + {y};
      MaxExists(rest);
      var m :| m in rest && forall x :: x in rest ==> x <= m;
      var top := if m < y then y else m;
      assert top in s && forall x :: x in s ==> x <= top;
    }
  }

  lemma {:induction false} MinExists(s: set<int>)
    requires s != {}
    ensures exists m :: m in s && forall x :: x in s ==> m <= x
  {
    var y := Element(s);
    if s != {y} {
      var rest := s - {y};
      assert s == rest + {y};
      MinExists(rest);
      var m :| m in rest && forall x :: x in rest ==> m <= x;
      var low := if y < m then y else m;
      assert low in s && forall x :: x in s ==> low <= x;
    }
  }

  ghost function Max(s: set<int>): (m: int)
    requires s != {}
    ensures m in s && forall x :: x in s ==> x <= m
  {
    MaxExists(s);
    var m :| m in s && forall x :: x in s ==> x <= m;
    m
  }

  ghost function Min(s: set<int>): (m: int)
    requires s != {}
    ensures m in s && forall x :: x in s ==> m <= x
  {
    MinExists(s);
    var m :| m in s && forall x :: x in s ==> m <= x;
    m
  }

  // ---------------------------------------------------------------- counting

  function Count<T>(s: seq<T>, p: T -> bool): nat {
    if s == [] then 0
    else Count(s[..|s| - 1], p) + if p(s[|s| - 1]) then 1 else 0
  }

  lemma CountSnoc<T>(s: seq<T>, k: nat, p: T -> bool)
    requires k < |s|
    ensures Count(s[..k + 1], p) == Count(s[..k], p) + if p(s[k]) then 1 else 0
  {
    assert s[..k + 1][..k] == s[..k];
  }

  lemma CountAppend<T>(s: seq<T>, x: T, p: T -> bool)
    ensures Count(s + [x], p) == Count(s, p) + if p(x) then 1 else 0
  {
    assert (s + [x])[..|s|] == s;
  }

  lemma {:induction false} CountConcat<T>(a: seq<T>, b: seq<T>, p: T -> bool)
    ensures Count(a + b, p) == Count(a, p) + Count(b, p)
  {
    if b == [] {
      assert a + b == a;
    } else {
      assert (a + b)[..|a + b| - 1] == a + b[..|b| - 1];
      CountConcat(a, b[..|b| - 1], p);
    }
  }

  lemma {:induction false} CountPermutation<T>(a: seq<T>, b: seq<T>, p: T -> bool)
    requires multiset(a) == multiset(b)
    ensures Count(a, p) == Count(b, p)
  {
    if a == [] {
      assert |multiset(b)| == 0;
    } else {
      var n := |a| - 1;
      var x := a[n];
      assert x in multiset(a);
      var i :| 0 <= i < |b| && b[i] == x;
      assert a == a[..n] + [x];
      assert b == b[..i] + [x] + b[i + 1..];
      calc {
        multiset(a[..n]);
        multiset(a[..n] + [x]) - multiset{x};
        multiset(b[..i] + [x] + b[i + 1..]) - multiset{x};
        multiset(b[..i] + b[i + 1..]);
      }
      CountPermutation(a[..n], b[..i] + b[i + 1..], p);
      CountConcat(b[..i], b[i + 1..], p);
      CountConcat(b[..i] + [x], b[i + 1..], p);
      CountConcat(b[..i], [x], p);
    }
  }

  lemma {:induction false} CountZero<T>(s: seq<T>, p: T -> bool)
    ensures Count(s, p) == 0 <==> forall x :: x in s ==> !p(x)
  {
    if s != [] {
      CountZero(s[..|s| - 1], p);
      assert s == s[..|s| - 1] + [s[|s| - 1]];
    }
  }

  // The positions of s whose element satisfies p.
  ghost function Places<T>(s: seq<T>, p: T -> bool): set<int> {
    set k | 0 <= k < |s| && p(s[k])
  }

  /** A count is a number of positions. */
  lemma {:induction false} CountIsPlaces<T>(s: seq<T>, p: T -> bool)
    ensures Count(s, p) == |Places(s, p)|
  {
    if s == [] {
      assert Places(s, p) == {};
    } else {
      var n := |s| - 1;
      CountIsPlaces(s[..n], p);
      assert Places(s, p) == Places(s[..n], p) + if p(s[n]) then {n} else {};
    }
  }

  // ---------------------------------------------------------------- filtering

  function Filter<T>(s: seq<T>, keep: T -> bool): seq<T> {
    if s == [] then []
    else Filter(s[..|s| - 1], keep) + if keep(s[|s| - 1]) then [s[|s| - 1]] else []
  }

  lemma FilterAppend<T>(s: seq<T>, x: T, keep: T -> bool)
    ensures Filter(s + [x], keep) == if keep(x) then Filter(s, keep) + [x] else Filter(s, keep)
  {
    assert (s + [x])[..|s|] == s;
  }

  lemma {:induction false} FilterElements<T>(s: seq<T>, keep: T -> bool)
    ensures forall x :: x in Filter(s, keep) <==> x in s && keep(x)
  {
    if s != [] {
      FilterElements(s[..|s| - 1], keep);
      assert s == s[..|s| - 1] + [s[|s| - 1]];
    }
  }

  lemma {:induction false} FilterConcat<T>(a: seq<T>, b: seq<T>, keep: T -> bool)
    ensures Filter(a + b, keep) == Filter(a, keep) + Filter(b, keep)
  {
    if b == [] {
      assert a + b == a;
    } else {
      assert (a + b)[..|a + b| - 1] == a + b[..|b| - 1];
      FilterConcat(a, b[..|b| - 1], keep);
    }
  }

  lemma {:induction false} FilterCounts<T>(s: seq<T>, keep: T -> bool, p: T -> bool)
    requires forall x :: x in s && p(x) ==> keep(x)
    ensures Count(Filter(s, keep), p) == Count(s, p)
  {
    if s != [] {
      var n := |s| - 1;
      assert s == s[..n] + [s[n]];
      FilterCounts(s[..n], keep, p);
      var r := Filter(s[..n], keep);
      assert (r + [s[n]])[..|r|] == r && r + [] == r;
    }
  }

  lemma {:induction false} FilterMultiplicity<T>(s: seq<T>, keep: T -> bool, x: T)
    ensures multiset(Filter(s, keep))[x] == if keep(x) then multiset(s)[x] else 0
  {
    if s != [] {
      FilterMultiplicity(s[..|s| - 1], keep, x);
      assert s == s[..|s| - 1] + [s[|s| - 1]];
    }
  }

  lemma {:induction false} FilterAll<T>(s: seq<T>, keep: T -> bool)
    requires forall x :: x in s ==> keep(x)
    ensures Filter(s, keep) == s
  {
    if s != [] {
      assert s == s[..|s| - 1] + [s[|s| - 1]];
      FilterAll(s[..|s| - 1], keep);
    }
  }

  // -------------------------------------------------------- order on strings

  // Go's `<` on strings.
  predicate StrLess(a: string, b: string) {
    if b == "" then false
    else if a == "" then true
    else if a[0] != b[0] then a[0] < b[0]
    else StrLess(a[1..], b[1..])
  }

  // The strings agree before position k, and there a ends or has the smaller character.
  ghost predicate LessAt(a: string, b: string, k: int) {
    0 <= k < |b| && k <= |a| && a[..k] == b[..k] && (k == |a| || a[k] < b[k])
  }

  /** The order of a dictionary: the first difference decides, and a proper prefix comes first. */
  lemma {:induction false} StrLessMeans(a: string, b: string)
    ensures StrLess(a, b) <==> exists k :: LessAt(a, b, k)
  {
    if a == "" || b == "" || a[0] != b[0] {
      if b != "" && (a == "" || a[0] < b[0]) {
        assert LessAt(a, b, 0);
      }
    } else {
      StrLessMeans(a[1..], b[1..]);
      if k :| LessAt(a[1..], b[1..], k) {
        var n := k + 1;
        assert a[..n] == [a[0]] + a[1..][..k] && b[..n] == [b[0]] + b[1..][..k];
        assert LessAt(a, b, n);
      }
      if k :| LessAt(a, b, k) {
        var n := k - 1;
        assert a[1..][..n] == a[..k][1..] && b[1..][..n] == b[..k][1..];
        assert LessAt(a[1..], b[1..], n);
      }
    }
  }

  lemma {:induction false} StrTrans(a: string, b: string, c: string)
    requires StrLess(a, b) && StrLess(b, c)
    ensures StrLess(a, c)
  {
    if a != "" && a[0] == b[0] == c[0] {
      StrTrans(a[1..], b[1..], c[1..]);
    }
  }

  lemma {:induction false} StrTrichotomy(a: string, b: string)
    ensures !(StrLess(a, b) && StrLess(b, a))
    ensures !StrLess(a, b) && !StrLess(b, a) <==> a == b
  {
    if a != "" && b != "" && a[0] == b[0] {
      StrTrichotomy(a[1..], b[1..]);
      assert a == [a[0]] + a[1..] && b == [b[0]] + b[1..];
    }
  }

  // ------------------------------------------------------------- sorted keys

  ghost predicate StrictlySorted(s: seq<string>) {
    forall i, j :: 0 <= i < j < |s| ==> StrLess(s[i], s[j])
  }

  ghost predicate SortedElements(s: seq<string>, keys: set<string>) {
    StrictlySorted(s) && forall c :: c in s <==> c in keys
  }

  function InsertKey(s: seq<string>, x: string): seq<string> {
    if s == [] then [x]
    else if StrLess(s[|s| - 1], x) then s + [x]
    else InsertKey(s[..|s| - 1], x) + [s[|s| - 1]]
  }

  lemma {:induction false} InsertKeySorts(s: seq<string>, x: string, keys: set<string>)
    requires SortedElements(s, keys) && x !in keys
    ensures SortedElements(InsertKey(s, x), keys + {x})
  {
    if s != [] {
      var n := |s| - 1;
      if StrLess(s[n], x) {
        forall i | 0 <= i < n ensures StrLess(s[i], x) { StrTrans(s[i], s[n], x); }
      } else {
        assert s[n] in s && s == s[..n] + [s[n]];
        StrTrichotomy(s[n], x);
        forall i | 0 <= i < n ensures s[i] != s[n] { StrTrichotomy(s[i], s[n]); }
        InsertKeySorts(s[..n], x, keys - {s[n]});
        var r := InsertKey(s[..n], x);
        forall i | 0 <= i < |r| ensures StrLess(r[i], s[n]) {
          assert r[i] in r;
          if r[i] != x {
            assert r[i] in s[..n];
          }
        }
      }
    }
  }

  lemma FirstIsIn<T>(s: seq<T>)
    ensures s == [] || exists x :: x in s
  {
    if s != [] {
      assert s[0] in s;
    }
  }

  lemma {:induction false} SortedUnique(s: seq<string>, t: seq<string>, keys: set<string>)
    requires SortedElements(s, keys) && SortedElements(t, keys)
    ensures s == t
  {
    if s == [] || t == [] {
      FirstIsIn(s);
      FirstIsIn(t);
    } else {
      var m, n := |s| - 1, |t| - 1;
      assert s[m] in t && t[n] in s;
      var i :| 0 <= i < |t| && t[i] == s[m];
      var j :| 0 <= j < |s| && s[j] == t[n];
      StrTrichotomy(s[m], t[n]);
      assert s[m] == t[n];
      DropLast(s, keys);
      DropLast(t, keys);
      SortedUnique(s[..m], t[..n], keys - {s[m]});
      assert s == s[..m] + [s[m]] && t == t[..n] + [t[n]];
    }
  }

  lemma DropLast(s: seq<string>, keys: set<string>)
    requires s != [] && SortedElements(s, keys)
    ensures SortedElements(s[..|s| - 1], keys - {s[|s| - 1]})
  {
    var n := |s| - 1;
    assert s == s[..n] + [s[n]];
    forall i | 0 <= i < n ensures s[i] != s[n] { StrTrichotomy(s[i], s[n]); }
  }

  lemma SortedExists(keys: set<string>)
    ensures exists s :: SortedElements(s, keys)
  {
    if keys == {} {
      assert SortedElements([], keys);
    } else {
      var x :| x in keys;
      SortedExists(keys - {x});
      var s :| SortedElements(s, keys - {x});
      InsertKeySorts(s, x, keys - {x});
      assert keys - {x} + {x} == keys;
    }
  }

  ghost function SortedSeq(keys: set<string>): (s: seq<string>)
    ensures SortedElements(s, keys)
  {
    SortedExists(keys);
    var s :| SortedElements(s, keys);
    s
  }

  lemma AppendLargest(s: seq<string>, keys: set<string>, x: string)
    requires SortedElements(s, keys) && forall c :: c in keys ==> StrLess(c, x)
    ensures SortedElements(s + [x], keys + {x})
  {
    forall i | 0 <= i < |s| ensures StrLess(s[i], x) { assert s[i] in s; }
  }

  // The keys of a Go map visited in sorted order: the range loop yields them in any order.
  method SortedKeys(keys: set<string>) returns (s: seq<string>)
    ensures s == SortedSeq(keys)
  {
    s := [];
    var rest := keys;
    while rest != {}
      invariant rest <= keys
      invariant SortedElements(s, keys - rest)
      decreases rest
    {
      var x :| x in rest;
      InsertKeySorts(s, x, keys - rest);
      s := InsertKey(s, x);
      assert keys - (rest - {x}) == keys - rest + {x};
      rest := rest - {x};
    }
    assert keys - rest == keys;
    SortedUnique(s, SortedSeq(keys), keys);
  }

  // ------------------------------------------------------------ permutations

  lemma SameElements<T>(s: seq<T>, t: seq<T>)
    requires multiset(s) == multiset(t)
    ensures forall x :: x in s <==> x in t
  {
    forall x ensures x in s <==> x in t {
      assert x in s <==> x in multiset(s);
      assert x in t <==> x in multiset(t);
    }
  }

  // What a permutation holds twice, the original holds twice.
  lemma TwiceIn<T>(ws: seq<T>, vs: seq<T>, i: nat, j: nat)
    requires multiset(ws) == multiset(vs) && i < j < |vs| && vs[i] == vs[j]
    ensures multiset(ws)[vs[i]] >= 2
  {
    var x := vs[i];
    assert vs == vs[..i] + [x] + vs[i + 1..j] + [x] + vs[j + 1..];
  }

  lemma AnotherPlace<T>(ws: seq<T>, k: nat) returns (l: nat)
    requires k < |ws| && multiset(ws)[ws[k]] >= 2
    ensures l < |ws| && l != k && ws[l] == ws[k]
  {
    var x := ws[k];
    assert ws == ws[..k] + [x] + ws[k + 1..];
    assert multiset(ws) == multiset(ws[..k]) + multiset{x} + multiset(ws[k + 1..]);
    if x in multiset(ws[..k]) {
      l :| 0 <= l < k && ws[..k][l] == x;
    } else {
      assert x in multiset(ws[k + 1..]);
      var m :| 0 <= m < |ws[k + 1..]| && ws[k + 1..][m] == x;
      l := k + 1 + m;
    }
  }

  // Two positions of a permutation come from two positions of the original.
  lemma TwoPlaces<T>(ws: seq<T>, vs: seq<T>, i: nat, j: nat)
    requires multiset(ws) == multiset(vs) && i < j < |vs|
    ensures exists k, l :: 0 <= k < |ws| && 0 <= l < |ws| && k != l && ws[k] == vs[i] && ws[l] == vs[j]
  {
    assert vs[i] in multiset(ws) && vs[j] in multiset(ws);
    var k :| 0 <= k < |ws| && ws[k] == vs[i];
    if vs[i] == vs[j] {
      TwiceIn(ws, vs, i, j);
      var l := AnotherPlace(ws, k);
    } else {
      var l :| 0 <= l < |ws| && ws[l] == vs[j];
    }
  }
}
