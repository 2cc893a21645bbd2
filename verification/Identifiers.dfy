/** Connection ids: Go's %d rendering and the id schemes built on it. */
module Identifiers {

  predicate IsDigit(c: char) { '0' <= c <= '9' }

  predicate AllDigits(s: string) { forall k :: 0 <= k < |s| ==> IsDigit(s[k]) }

  function Digit(n: nat): char
    requires n < 10
  {
    '0' + n as char
  }

  // %d of a non-negative integer.
  function Dec(n: nat): string {
    if n < 10 then [Digit(n)] else Dec(n / 10) + [Digit(n % 10)]
  }

  // The value of a digit string, leading zeros allowed.
  function Value(s: string): nat
    requires AllDigits(s)
  {
    if s == "" then 0 else 10 * Value(s[..|s| - 1]) + (s[|s| - 1] - '0') as nat
  }

  /** Rendering yields digits only and reads back as the number rendered. */
  lemma {:induction false} DecRoundTrip(n: nat)
    ensures Dec(n) != "" && AllDigits(Dec(n)) && Value(Dec(n)) == n
  {
    if n < 10 {
      assert Value(Dec(n)) == 10 * Value(Dec(n)[..0]) + (Digit(n) - '0') as nat;
    } else {
      DecRoundTrip(n / 10);
      assert Dec(n)[..|Dec(n)| - 1] == Dec(n / 10);
    }
  }

  /** The decimal notation: digits in order, the last one last, and no leading zero. */
  lemma {:induction false} DecMeans(n: nat, d: nat)
    requires d < 10
    ensures Dec(10 * n + d) == (if n == 0 then "" else Dec(n)) + ["0123456789"[d]]
    ensures |Dec(n)| > 1 ==> Dec(n)[0] != '0'
  {
    assert (10 * n + d) / 10 == n && (10 * n + d) % 10 == d;
    if n >= 10 {
      DecMeans(n / 10, d);
      DecStarts(n / 10);
    }
  }

  /** What counts as a digit, and what one more digit is worth. */
  lemma DigitsMean(s: string, c: char)
    ensures IsDigit(c) <==> c in "0123456789"
    ensures AllDigits(s) ==> forall d: nat :: d < 10 && c == "0123456789"[d] ==>
              AllDigits(s + [c]) && Value(s + [c]) == 10 * Value(s) + d
  {
    if AllDigits(s) && IsDigit(c) {
      assert (s + [c])[..|s|] == s;
    }
  }

  lemma {:induction false} DecStarts(n: nat)
    ensures Dec(n) != "" && (n > 0 ==> Dec(n)[0] != '0')
  {
    if n >= 10 {
      DecStarts(n / 10);
    }
  }

  lemma {:induction false} LastSeparator(a: string, d: string, b: string, e: string, sep: char)
    requires sep !in d && sep !in e && a + [sep] + d == b + [sep] + e
    ensures a == b && d == e
    decreases |d|
  {
    var s := a + [sep] + d;
    assert s[|s| - 1] == if d == "" then sep else d[|d| - 1];
    assert s[|s| - 1] == if e == "" then sep else e[|e| - 1];
    if d != "" && e != "" {
      var m, n := |d| - 1, |e| - 1;
      assert s[..|s| - 1] == a + [sep] + d[..m] == b + [sep] + e[..n];
      LastSeparator(a, d[..m], b, e[..n], sep);
      assert d == d[..m] + [d[m]] && e == e[..n] + [e[n]];
    } else {
      assert d == "" && e == "";
      assert a == s[..|s| - 1] == b;
    }
  }

  // A separator that is not a digit can be found again in front of the last number.
  lemma Unambiguous(a: string, m: nat, b: string, n: nat, sep: char)
    requires !IsDigit(sep) && a + [sep] + Dec(m) == b + [sep] + Dec(n)
    ensures a == b && m == n
  {
    DecRoundTrip(m);
    DecRoundTrip(n);
    LastSeparator(a, Dec(m), b, Dec(n), sep);
  }

  function HeldId(node: string, gen: nat): string { node + "-held-" + Dec(gen) }

  function NewId(node: string, gen: nat): string { node + "-new-" + Dec(gen) }

  function WorkerNode(node: string, index: nat): string { node + "-w" + Dec(index) }

  /** Ids of different sequences, or of different generations, never coincide. */
  lemma HeldIdInjective(a: string, m: nat, b: string, n: nat)
    ensures HeldId(a, m) == HeldId(b, n) <==> a == b && m == n
  {
    if HeldId(a, m) == HeldId(b, n) {
      assert HeldId(a, m) == (a + "-held") + ['-'] + Dec(m);
      assert HeldId(b, n) == (b + "-held") + ['-'] + Dec(n);
      Unambiguous(a + "-held", m, b + "-held", n, '-');
      assert a == (a + "-held")[..|a|] && b == (b + "-held")[..|b|];
    }
  }

  lemma NewIdInjective(a: string, m: nat, b: string, n: nat)
    ensures NewId(a, m) == NewId(b, n) <==> a == b && m == n
  {
    if NewId(a, m) == NewId(b, n) {
      assert NewId(a, m) == (a + "-new") + ['-'] + Dec(m);
      assert NewId(b, n) == (b + "-new") + ['-'] + Dec(n);
      Unambiguous(a + "-new", m, b + "-new", n, '-');
      assert a == (a + "-new")[..|a|] && b == (b + "-new")[..|b|];
    }
  }

  /** A load worker's name determines its node and its index. */
  lemma WorkerNodeInjective(a: string, i: nat, b: string, j: nat)
    ensures WorkerNode(a, i) == WorkerNode(b, j) <==> a == b && i == j
  {
    if WorkerNode(a, i) == WorkerNode(b, j) {
      assert WorkerNode(a, i) == (a + "-") + ['w'] + Dec(i);
      assert WorkerNode(b, j) == (b + "-") + ['w'] + Dec(j);
      Unambiguous(a + "-", i, b + "-", j, 'w');
      assert a == (a + "-")[..|a|] && b == (b + "-")[..|b|];
    }
  }

  /** Held and short-lived connections draw from disjoint id spaces, whatever the names. */
  lemma HeldIsNotNew(a: string, m: nat, b: string, n: nat)
    ensures HeldId(a, m) != NewId(b, n)
  {
    if HeldId(a, m) == NewId(b, n) {
      assert HeldId(a, m) == (a + "-held") + ['-'] + Dec(m);
      assert NewId(b, n) == (b + "-new") + ['-'] + Dec(n);
      Unambiguous(a + "-held", m, b + "-new", n, '-');
      LastChars(a, b);
      assert false;
    }
  }

  lemma LastChars(a: string, b: string)
    ensures a + "-held" != b + "-new"
  {
    assert (a + "-held")[|a + "-held"| - 1] == 'd' && (b + "-new")[|b + "-new"| - 1] == 'w';
  }

  // Whoever holds connections: one probe per node, named after it, and the node's load workers.
  datatype Holder = Probe(node: string) | LoadWorker(node: string, index: nat)

  function NameOf(h: Holder): string {
    match h
    case Probe(node) => node
    case LoadWorker(node, index) => WorkerNode(node, index)
  }

  // Some node is named like a load worker of another.
  ghost predicate Shadowed(nodes: set<string>) {
    exists n, i: nat :: n in nodes && WorkerNode(n, i) in nodes
  }

  /** Over a set of nodes all holders have different names exactly when no node shadows a worker. */
  lemma HolderNames(nodes: set<string>)
    ensures !Shadowed(nodes) <==>
      forall g: Holder, h: Holder :: g.node in nodes && h.node in nodes && NameOf(g) == NameOf(h) ==> g == h
  {
    if n, i: nat :| n in nodes && WorkerNode(n, i) in nodes {
      var g, h := Probe(WorkerNode(n, i)), LoadWorker(n, i);
      assert g.node in nodes && h.node in nodes && NameOf(g) == NameOf(h);
    }
    if !Shadowed(nodes) {
      forall g: Holder, h: Holder | g.node in nodes && h.node in nodes && NameOf(g) == NameOf(h) ensures g == h {
        if g.LoadWorker? && h.LoadWorker? {
          WorkerNodeInjective(g.node, g.index, h.node, h.index);
        }
      }
    }
  }

  // Kubernetes admits such a pair of node names.
  lemma ShadowedNodes()
    ensures Shadowed({"a", "a-w0"})
  {
    assert WorkerNode("a", 0) == "a-w0";
  }
}
