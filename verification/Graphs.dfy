/** Finite directed graphs, walks and cycles: the declarative side of every depth-first search
    in the system. A node that is not a key of the map has no outgoing edges. */
module Graphs {

  type Graph<T> = map<T, seq<T>>

  function Successors<T(==)>(g: Graph<T>, n: T): seq<T> {
    if n in g then g[n] else []
  }

  ghost predicate Edge<T(!new)>(g: Graph<T>, a: T, b: T) {
    b in Successors(g, a)
  }

  /** A walk is a non-empty list of nodes, each an immediate successor of the one before. */
  ghost predicate Walk<T(!new)>(g: Graph<T>, p: seq<T>) {
    p != [] && forall i :: 0 <= i < |p| - 1 ==> Edge(g, p[i], p[i + 1])
  }

  ghost predicate WalkFromTo<T(!new)>(g: Graph<T>, p: seq<T>, a: T, b: T) {
    Walk(g, p) && p[0] == a && p[|p| - 1] == b
  }

  ghost predicate Reaches<T(!new)>(g: Graph<T>, a: T, b: T) {
    exists p :: WalkFromTo(g, p, a, b)
  }

  /** Reaches by at least one edge. */
  ghost predicate StrictlyReaches<T(!new)>(g: Graph<T>, a: T, b: T) {
    exists c :: Edge(g, a, c) && Reaches(g, c, b)
  }

  /** A walk of at least one edge that returns to where it started. */
  ghost predicate ClosedWalk<T(!new)>(g: Graph<T>, p: seq<T>) {
    |p| >= 2 && Walk(g, p) && p[0] == p[|p| - 1]
  }

  ghost predicate OnCycle<T(!new)>(g: Graph<T>, a: T) {
    exists p :: ClosedWalk(g, p) && p[0] == a
  }

  ghost predicate ReachesCycle<T(!new)>(g: Graph<T>, a: T) {
    exists b :: Reaches(g, a, b) && OnCycle(g, b)
  }

  ghost predicate Acyclic<T(!new)>(g: Graph<T>) {
    forall p :: !ClosedWalk(g, p)
  }

  ghost predicate Closed<T(!new)>(g: Graph<T>, s: set<T>) {
    forall a, b :: a in s && Edge(g, a, b) ==> b in s
  }

  lemma SmallerSet<T>(a: set<T>, b: set<T>)
    requires a < b
    ensures |a| < |b|
  {
    var x :| x in b && x !in a;
    assert a <= b - {x};
    SubsetSize(a, b - {x});
  }

  lemma {:induction false} SubsetSize<T>(a: set<T>, b: set<T>)
    requires a <= b
    ensures |a| <= |b|
  {
    if a != {} {
      var x :| x in a;
      SubsetSize(a - {x}, b - {x});
    }
  }

  lemma WalkConcat<T(!new)>(g: Graph<T>, p: seq<T>, q: seq<T>)
    requires Walk(g, p) && Walk(g, q) && p[|p| - 1] == q[0]
    ensures WalkFromTo(g, p + q[1..], p[0], q[|q| - 1])
    ensures |p + q[1..]| == |p| + |q| - 1
  {
    var r := p + q[1..];
    forall i | 0 <= i < |r| - 1 ensures Edge(g, r[i], r[i + 1]) {
      if i < |p| - 1 { assert Edge(g, p[i], p[i + 1]); }
      else { assert Edge(g, q[i - |p| + 1], q[i - |p| + 2]); }
    }
  }

  lemma WalkPrepend<T(!new)>(g: Graph<T>, a: T, p: seq<T>)
    requires Walk(g, p) && Edge(g, a, p[0])
    ensures Walk(g, [a] + p)
  {
    var q := [a] + p;
    forall i | 0 <= i < |q| - 1 ensures Edge(g, q[i], q[i + 1]) {
      if i > 0 { assert Edge(g, p[i - 1], p[i]); }
    }
  }

  lemma WalkAppend<T(!new)>(g: Graph<T>, p: seq<T>, b: T)
    requires p == [] || (Walk(g, p) && Edge(g, p[|p| - 1], b))
    ensures Walk(g, p + [b])
  {
    var q := p + [b];
    forall i | 0 <= i < |q| - 1 ensures Edge(g, q[i], q[i + 1]) {
      if i < |p| - 1 { assert Edge(g, p[i], p[i + 1]); }
    }
  }

  lemma WalkSlice<T(!new)>(g: Graph<T>, p: seq<T>, i: nat, j: nat)
    requires Walk(g, p) && i < j <= |p|
    ensures Walk(g, p[i..j])
  {
    forall k | 0 <= k < j - i - 1 ensures Edge(g, p[i..j][k], p[i..j][k + 1]) {
      assert Edge(g, p[i + k], p[i + k + 1]);
    }
  }

  lemma ReachesSelf<T(!new)>(g: Graph<T>, a: T)
    ensures Reaches(g, a, a)
  {
    assert WalkFromTo(g, [a], a, a);
  }

  lemma ReachesEdge<T(!new)>(g: Graph<T>, a: T, b: T)
    requires Edge(g, a, b)
    ensures Reaches(g, a, b)
  {
    assert WalkFromTo(g, [a, b], a, b);
  }

  lemma ReachesTransitive<T(!new)>(g: Graph<T>, a: T, b: T, c: T)
    requires Reaches(g, a, b) && Reaches(g, b, c)
    ensures Reaches(g, a, c)
  {
    var p :| WalkFromTo(g, p, a, b);
    var q :| WalkFromTo(g, q, b, c);
    WalkConcat(g, p, q);
  }

  /** A walk of at least one edge starts with an edge to somewhere that still reaches the end. */
  lemma ReachesFirstStep<T(!new)>(g: Graph<T>, a: T, c: T) returns (b: T)
    requires Reaches(g, a, c) && a != c
    ensures Edge(g, a, b) && Reaches(g, b, c)
  {
    var p :| WalkFromTo(g, p, a, c);
    b := p[1];
    WalkSlice(g, p, 1, |p|);
    assert WalkFromTo(g, p[1..|p|], b, c);
  }

  /** An edge into a node that reaches its origin closes a cycle. */
  lemma EdgeBackClosesCycle<T(!new)>(g: Graph<T>, a: T, b: T)
    requires Edge(g, a, b) && Reaches(g, b, a)
    ensures OnCycle(g, a) && OnCycle(g, b)
  {
    var q :| WalkFromTo(g, q, b, a);
    var p := [a] + q;
    forall i | 0 <= i < |p| - 1 ensures Edge(g, p[i], p[i + 1]) {
      if i > 0 { assert Edge(g, q[i - 1], q[i]); }
    }
    assert ClosedWalk(g, p);
    WalkConcat(g, q, [a, b]);
    assert ClosedWalk(g, q + [a, b][1..]);
  }

  lemma StrictlyReachesSelf<T(!new)>(g: Graph<T>, a: T)
    requires StrictlyReaches(g, a, a)
    ensures OnCycle(g, a) && ReachesCycle(g, a)
  {
    var c :| Edge(g, a, c) && Reaches(g, c, a);
    EdgeBackClosesCycle(g, a, c);
    ReachesSelf(g, a);
  }

  /** Whatever strictly reaches `n`, or is `n`, strictly reaches each successor of `n`. */
  lemma StrictlyReachesNext<T(!new)>(g: Graph<T>, x: T, n: T, d: T)
    requires x == n || StrictlyReaches(g, x, n)
    requires Edge(g, n, d)
    ensures StrictlyReaches(g, x, d)
  {
    if x == n {
      ReachesSelf(g, d);
    } else {
      var c :| Edge(g, x, c) && Reaches(g, c, n);
      ReachesEdge(g, n, d);
      ReachesTransitive(g, c, n, d);
    }
  }

  lemma OnCycleStep<T(!new)>(g: Graph<T>, a: T) returns (b: T)
    requires OnCycle(g, a)
    ensures Edge(g, a, b) && Reaches(g, b, a)
  {
    var p :| ClosedWalk(g, p) && p[0] == a;
    b := p[1];
    assert Edge(g, p[0], p[1]);
    WalkSlice(g, p, 1, |p|);
    assert WalkFromTo(g, p[1..|p|], b, a);
  }

  /** A set closed under edges holds everything its members reach. */
  lemma {:induction false} WalkStaysInClosedSet<T(!new)>(g: Graph<T>, s: set<T>, p: seq<T>)
    requires Closed(g, s) && Walk(g, p) && p[0] in s
    ensures forall i :: 0 <= i < |p| ==> p[i] in s
    decreases |p|
  {
    if |p| > 1 {
      assert Edge(g, p[0], p[1]);
      WalkSlice(g, p, 1, |p|);
      WalkStaysInClosedSet(g, s, p[1..|p|]);
      forall i | 0 <= i < |p| ensures p[i] in s {
        if i > 0 { assert p[i] == p[1..|p|][i - 1]; }
      }
    }
  }

  lemma ReachesInClosedSet<T(!new)>(g: Graph<T>, s: set<T>, a: T, b: T)
    requires Closed(g, s) && a in s && Reaches(g, a, b)
    ensures b in s
  {
    var p :| WalkFromTo(g, p, a, b);
    WalkStaysInClosedSet(g, s, p);
  }

  /** A finishing order: every node comes after all its successors. */
  ghost predicate FinishingOrder<T(!new)>(g: Graph<T>, order: seq<T>) {
    forall i, b :: 0 <= i < |order| && Edge(g, order[i], b) ==> b in order[..i]
  }

  lemma FinishingOrderExtends<T(!new)>(g: Graph<T>, order: seq<T>, n: T)
    requires FinishingOrder(g, order)
    requires forall b :: Edge(g, n, b) ==> b in order
    ensures FinishingOrder(g, order + [n])
  {
    var o := order + [n];
    forall i, b | 0 <= i < |o| && Edge(g, o[i], b) ensures b in o[..i] {
      if i < |order| { assert o[..i] == order[..i]; } else { assert o[..i] == order; }
    }
  }

  /** Along a walk the position in a finishing order strictly falls. */
  lemma {:induction false} WalkFallsInOrder<T(!new)>(g: Graph<T>, order: seq<T>, p: seq<T>, i: nat)
    requires FinishingOrder(g, order) && Walk(g, p) && i < |order| && p[0] == order[i]
    ensures |p| > 1 ==> p[|p| - 1] in order[..i]
    ensures p[|p| - 1] in order
    decreases |p|
  {
    if |p| > 1 {
      assert Edge(g, p[0], p[1]);
      var j :| 0 <= j < i && order[..i][j] == p[1];
      WalkSlice(g, p, 1, |p|);
      WalkFallsInOrder(g, order, p[1..|p|], j);
      if |p| > 2 {
        var k :| 0 <= k < j && order[..j][k] == p[|p| - 1];
        assert order[..i][k] == p[|p| - 1];
      }
    }
  }

  /** Distinct nodes listed in a finishing order reach no cycle. */
  lemma FinishingOrderAcyclic<T(!new)>(g: Graph<T>, order: seq<T>, a: T)
    requires FinishingOrder(g, order) && a in order
    ensures !ReachesCycle(g, a)
    ensures forall b :: Reaches(g, a, b) ==> b in order
  {
    var i :| 0 <= i < |order| && order[i] == a;
    forall b | Reaches(g, a, b) ensures b in order && !OnCycle(g, b) {
      var p :| WalkFromTo(g, p, a, b);
      WalkFallsInOrder(g, order, p, i);
      var k := FirstIndex(order, b);
      forall q | ClosedWalk(g, q) && q[0] == b ensures false {
        WalkFallsInOrder(g, order, q, k);
      }
    }
  }

  lemma FirstIndex<T>(s: seq<T>, x: T) returns (k: nat)
    requires x in s
    ensures k < |s| && s[k] == x && x !in s[..k]
  {
    k := 0;
    while s[k] != x
      invariant k < |s| && x !in s[..k]
      decreases |s| - k
    {
      k := k + 1;
    }
  }

  lemma ReachesCycleStep<T(!new)>(g: Graph<T>, a: T, b: T)
    requires Reaches(g, a, b) && ReachesCycle(g, b)
    ensures ReachesCycle(g, a)
  {
    var c :| Reaches(g, b, c) && OnCycle(g, c);
    ReachesTransitive(g, a, b, c);
  }

  /** A node that reaches a cycle is on one, or has a successor that reaches one. */
  lemma ReachesCycleUnfold<T(!new)>(g: Graph<T>, a: T) returns (b: T)
    requires ReachesCycle(g, a)
    ensures Edge(g, a, b) && ReachesCycle(g, b)
  {
    var c :| Reaches(g, a, c) && OnCycle(g, c);
    if a == c {
      b := OnCycleStep(g, a);
    } else {
      b := ReachesFirstStep(g, a, c);
    }
  }

  /** Graphs with the same edges have the same walks. */
  lemma SameEdgesSameCycles<T(!new)>(g: Graph<T>, h: Graph<T>)
    requires forall a, b :: Edge(g, a, b) <==> Edge(h, a, b)
    ensures forall p :: Walk(g, p) <==> Walk(h, p)
    ensures Acyclic(g) <==> Acyclic(h)
  {
    forall p ensures Walk(g, p) <==> Walk(h, p) {
    }
    forall p ensures ClosedWalk(g, p) <==> ClosedWalk(h, p) {
    }
  }

  function Reversed<T>(p: seq<T>): (r: seq<T>)
    ensures |r| == |p| && forall i :: 0 <= i < |p| ==> r[i] == p[|p| - 1 - i]
  {
    seq(|p|, i requires 0 <= i < |p| => p[|p| - 1 - i])
  }

  /** Following edges backwards. */
  lemma WalkBackwards<T(!new)>(g: Graph<T>, h: Graph<T>, p: seq<T>)
    requires forall a, b :: Edge(g, a, b) ==> Edge(h, b, a)
    requires Walk(g, p)
    ensures Walk(h, Reversed(p))
  {
    var r := Reversed(p);
    forall i | 0 <= i < |r| - 1 ensures Edge(h, r[i], r[i + 1]) {
      assert Edge(g, p[|p| - 2 - i], p[|p| - 1 - i]);
    }
  }

  lemma ReachesBackwards<T(!new)>(g: Graph<T>, h: Graph<T>, a: T, b: T)
    requires forall x, y :: Edge(g, x, y) ==> Edge(h, y, x)
    requires Reaches(g, a, b)
    ensures Reaches(h, b, a)
  {
    var p :| WalkFromTo(g, p, a, b);
    WalkBackwards(g, h, p);
    assert WalkFromTo(h, Reversed(p), b, a);
  }

  /** A walk of at least one edge ends with an edge. */
  lemma ReachesLastStep<T(!new)>(g: Graph<T>, a: T, c: T) returns (b: T)
    requires StrictlyReaches(g, a, c)
    ensures Reaches(g, a, b) && Edge(g, b, c)
  {
    var d :| Edge(g, a, d) && Reaches(g, d, c);
    var q :| WalkFromTo(g, q, d, c);
    WalkPrepend(g, a, q);
    var p := [a] + q;
    b := p[|p| - 2];
    assert Edge(g, p[|p| - 2], p[|p| - 1]);
    WalkSlice(g, p, 0, |p| - 1);
    assert WalkFromTo(g, p[0..|p| - 1], a, b);
  }

  lemma StrictlyBackwards<T(!new)>(g: Graph<T>, h: Graph<T>, a: T, b: T)
    requires forall x, y :: Edge(g, x, y) ==> Edge(h, y, x)
    requires StrictlyReaches(g, a, b)
    ensures StrictlyReaches(h, b, a)
  {
    var c := ReachesLastStep(g, a, b);
    ReachesBackwards(g, h, a, c);
  }

  function NodeSet<T(==)>(g: Graph<T>): set<T> {
    g.Keys + (set a, b | a in g && b in g[a] :: b)
  }

  lemma SameEdgesSameReach<T(!new)>(g: Graph<T>, h: Graph<T>, a: T, b: T)
    requires forall x, y :: Edge(g, x, y) <==> Edge(h, x, y)
    requires StrictlyReaches(g, a, b)
    ensures StrictlyReaches(h, a, b)
  {
    var c :| Edge(g, a, c) && Reaches(g, c, b);
    var p :| WalkFromTo(g, p, c, b);
    SameEdgesSameCycles(g, h);
    assert WalkFromTo(h, p, c, b);
  }
}
