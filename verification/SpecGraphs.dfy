/** Cycles, impact and delivery waves of a system specification
    (tools/system-spec/reference-implementation/metamodel.py). */
module SpecGraphs {
  import opened Ordering
  import opened Graphs

  /** The identifier of a component, domain or requirement. */
  datatype Id = Id(text: string)

  predicate IdLeq(a: Id, b: Id) { StringLeq(a.text, b.text) }

  // ----- cycle finding -----

  /** The search between two visits: `stack` is a walk, `finished` the nodes taken off it again;
      whatever is recorded is a closed walk, and while nothing is, nodes finish in order. */
  ghost predicate Searching(
    g: Graph<Id>, seen: set<Id>, stack: seq<Id>, out: seq<seq<Id>>, finished: seq<Id>)
  {
    && (stack != [] ==> Walk(g, stack))
    && seen == (set x | x in stack) + (set x | x in finished)
    && (forall i :: 0 <= i < |out| ==> ClosedWalk(g, out[i]))
    && (out == [] ==> FinishingOrder(g, finished))
  }

  lemma Enter(
    g: Graph<Id>, seen: set<Id>, stack: seq<Id>, out: seq<seq<Id>>, finished: seq<Id>, n: Id)
    requires Searching(g, seen, stack, out, finished)
    requires stack != [] ==> Edge(g, stack[|stack| - 1], n)
    ensures Searching(g, seen + {n}, stack + [n], out, finished)
  {
    WalkAppend(g, stack, n);
  }

  lemma Record(
    g: Graph<Id>, seen: set<Id>, stack: seq<Id>, out: seq<seq<Id>>, finished: seq<Id>, i: nat)
    requires Searching(g, seen, stack, out, finished)
    requires i < |stack| && Edge(g, stack[|stack| - 1], stack[i])
    ensures Searching(g, seen, stack, out + [stack[i..] + [stack[i]]], finished)
  {
    WalkSlice(g, stack, i, |stack|);
    assert stack[i..|stack|] == stack[i..];
    WalkAppend(g, stack[i..], stack[i]);
  }

  lemma Leave(
    g: Graph<Id>, seen: set<Id>, stack: seq<Id>, out: seq<seq<Id>>, finished: seq<Id>, n: Id)
    requires Searching(g, seen, stack + [n], out, finished)
    requires out == [] ==> forall d :: d in Successors(g, n) ==> d in finished
    ensures (stack + [n])[..|stack + [n]| - 1] == stack
    ensures Searching(g, seen, stack, out, finished + [n])
  {
    if out == [] { FinishingOrderExtends(g, finished, n); }
    if stack != [] {
      WalkSlice(g, stack + [n], 0, |stack|);
      assert (stack + [n])[0..|stack|] == stack;
    }
  }

  lemma SeenApart(
    g: Graph<Id>, seen: set<Id>, stack: seq<Id>, out: seq<seq<Id>>, finished: seq<Id>, n: Id)
    requires Searching(g, seen, stack, out, finished) && n in seen && n !in stack
    ensures n in finished
  {
  }

  lemma OnStack(
    g: Graph<Id>, seen: set<Id>, stack: seq<Id>, out: seq<seq<Id>>, finished: seq<Id>, n: Id)
    requires Searching(g, seen, stack, out, finished) && (n in stack || n in finished)
    ensures n in seen
  {
  }

  lemma BeforeEntering(seen: set<Id>, n: Id)
    requires n !in seen
    ensures seen + {n} - {n} == seen
  {
  }

  /** The closure `_cycles` builds around `seen`, `stack` and `out`. */
  class CycleSearch {
    const graph: Graph<Id>
    var seen: set<Id>
    var stack: seq<Id>
    var out: seq<seq<Id>>
    ghost var finished: seq<Id>

    ghost predicate Valid()
      reads this
    {
      Searching(graph, seen, stack, out, finished)
    }

    constructor (graph: Graph<Id>)
      ensures this.graph == graph && Valid() && stack == [] && finished == [] && out == []
    {
      this.graph := graph;
      seen, stack, out, finished := {}, [], [], [];
    }

    /** Records the part of the stack from `n` on, closed by `n`. */
    method Close(n: Id)
      requires Valid() && n in stack && Edge(graph, stack[|stack| - 1], n)
      modifies `out
      ensures Valid() && |out| == |old(out)| + 1 && n in seen
    {
      hide Searching, Edge;
      var i := IndexIn(stack, n);
      Record(graph, seen, stack, out, finished, i);
      OnStack(graph, seen, stack, out, finished, n);
      out := out + [stack[i..] + [n]];
    }

    method Visit(n: Id)
      requires Valid() && (stack != [] ==> Edge(graph, stack[|stack| - 1], n))
      modifies this
      ensures Valid() && stack == old(stack) && old(seen) <= seen && n in seen
      ensures |old(out)| <= |out| && (out == [] ==> n in finished)
      ensures forall x :: x in old(finished) ==> x in finished
      decreases |graph.Keys - seen|, 1
    {
      hide Searching, Edge, Successors;
      if n in stack {
        Close(n);
        return;
      }
      if n in seen {
        SeenApart(graph, seen, stack, out, finished, n);
        return;
      }
      ghost var below := stack;
      Enter(graph, seen, stack, out, finished, n);
      BeforeEntering(seen, n);
      seen := seen + {n};
      stack := stack + [n];
      VisitAll(n, Successors(graph, n));
      Pop(below, n);
    }

    /** Takes the finished node off the stack. */
    method Pop(ghost below: seq<Id>, n: Id)
      requires Valid() && stack == below + [n]
      requires out == [] ==> forall d :: d in Successors(graph, n) ==> d in finished
      modifies `stack, `finished
      ensures Valid() && stack == below && n in finished
      ensures forall x :: x in old(finished) ==> x in finished
    {
      hide Searching, Successors;
      Leave(graph, seen, below, out, finished, n);
      stack := stack[..|stack| - 1];
      finished := finished + [n];
    }

    /** The loop over the successors of the node on top of the stack. */
    method VisitAll(n: Id, successors: seq<Id>)
      requires Valid() && stack != [] && stack[|stack| - 1] == n && n in seen && successors == Successors(graph, n)
      modifies this
      ensures Valid() && stack == old(stack) && old(seen) <= seen
      ensures |old(out)| <= |out| && forall x :: x in old(finished) ==> x in finished
      ensures out == [] ==> forall d :: d in successors ==> d in finished
      decreases |graph.Keys - (seen - {n})|, 0
    {
      hide Searching;
      var i := 0;
      while i < |successors|
        invariant 0 <= i <= |successors|
        invariant Valid() && stack == old(stack) && old(seen) <= seen
        invariant |old(out)| <= |out| && forall x :: x in old(finished) ==> x in finished
        invariant out == [] ==> forall k :: 0 <= k < i ==> successors[k] in finished
      {
        assert n in graph.Keys - (old(seen) - {n});
        SmallerSet(graph.Keys - seen, graph.Keys - (old(seen) - {n}));
        Visit(successors[i]);
        i := i + 1;
      }
    }
  }

  method IndexIn(s: seq<Id>, x: Id) returns (i: nat)
    requires x in s
    ensures i < |s| && s[i] == x
  {
    i := 0;
    while s[i] != x
      invariant i < |s| && x !in s[..i]
      decreases |s| - i
    {
      i := i + 1;
    }
  }

  /** Reports only real closed walks, and reports some exactly when there is a cycle. */
  method Cycles(g: Graph<Id>, keys: seq<Id>) returns (out: seq<seq<Id>>)
    requires forall n :: n in keys <==> n in g
    ensures forall i :: 0 <= i < |out| ==> ClosedWalk(g, out[i])
    ensures out == [] <==> Acyclic(g)
  {
    var search := new CycleSearch(g);
    var i := 0;
    while i < |keys|
      invariant 0 <= i <= |keys|
      invariant search.Valid() && search.stack == []
      invariant search.out == [] ==> forall k :: 0 <= k < i ==> keys[k] in search.finished
    {
      search.Visit(keys[i]);
      i := i + 1;
    }
    out := search.out;
    if out == [] {
      forall p ensures !ClosedWalk(g, p) {
        if ClosedWalk(g, p) {
          assert Edge(g, p[0], p[1]);
          assert p[0] in keys;
          FinishingOrderAcyclic(g, search.finished, p[0]);
          ReachesSelf(g, p[0]);
          assert OnCycle(g, p[0]);
        }
      }
    } else {
      assert ClosedWalk(g, out[0]);
    }
  }

  // ----- dependency depth -----

  /** A walk of exactly `k` edges starts at `c`. */
  ghost predicate HasWalk(g: Graph<Id>, c: Id, k: nat) {
    exists p :: Walk(g, p) && p[0] == c && |p| == k + 1
  }

  lemma HasWalkUnfold(g: Graph<Id>, c: Id, k: nat)
    ensures HasWalk(g, c, k + 1) <==> exists d :: Edge(g, c, d) && HasWalk(g, d, k)
  {
    if HasWalk(g, c, k + 1) {
      var p :| Walk(g, p) && p[0] == c && |p| == k + 2;
      WalkSlice(g, p, 1, |p|);
      assert Edge(g, p[0], p[1]);
      assert p[1..|p|][0] == p[1];
    }
    if exists d :: Edge(g, c, d) && HasWalk(g, d, k) {
      var d :| Edge(g, c, d) && HasWalk(g, d, k);
      var q :| Walk(g, q) && q[0] == d && |q| == k + 1;
      WalkConcat(g, [c, d], q);
    }
  }

  lemma HasWalkZero(g: Graph<Id>, c: Id)
    ensures HasWalk(g, c, 0)
  {
    assert Walk(g, [c]);
  }

  lemma HasShorterWalk(g: Graph<Id>, c: Id, k: nat, j: nat)
    requires HasWalk(g, c, k) && j <= k
    ensures HasWalk(g, c, j)
  {
    var p :| Walk(g, p) && p[0] == c && |p| == k + 1;
    WalkSlice(g, p, 0, j + 1);
  }

  /** What reaches a cycle has walks of every length. */
  lemma {:induction false} CycleGivesWalks(g: Graph<Id>, c: Id, k: nat)
    requires ReachesCycle(g, c)
    ensures HasWalk(g, c, k)
    decreases k
  {
    if k == 0 {
      HasWalkZero(g, c);
    } else {
      var d := ReachesCycleUnfold(g, c);
      CycleGivesWalks(g, d, k - 1);
      HasWalkUnfold(g, c, k - 1);
    }
  }

  ghost predicate HasNext(g: Graph<Id>, stuck: set<Id>, x: Id) {
    exists y :: y in stuck && Edge(g, x, y)
  }

  /** Every member has a successor that is a member. */
  ghost predicate Inescapable(g: Graph<Id>, stuck: set<Id>) {
    forall x :: x in stuck ==> HasNext(g, stuck, x)
  }

  lemma PickNext(g: Graph<Id>, stuck: set<Id>, x: Id) returns (y: Id)
    requires HasNext(g, stuck, x)
    ensures y in stuck && Edge(g, x, y)
  {
    y :| y in stuck && Edge(g, x, y);
  }

  lemma NextInside(g: Graph<Id>, stuck: set<Id>, x: Id) returns (y: Id)
    requires x in stuck && Inescapable(g, stuck)
    ensures y in stuck && Edge(g, x, y)
  {
    hide HasNext;
    y := PickNext(g, stuck, x);
  }

  lemma {:induction false} StayInside(g: Graph<Id>, stuck: set<Id>, c: Id, k: nat) returns (p: seq<Id>)
    requires c in stuck && Inescapable(g, stuck)
    ensures Walk(g, p) && p[0] == c && |p| == k + 1 && forall i :: 0 <= i < |p| ==> p[i] in stuck
    decreases k
  {
    hide Inescapable;
    if k == 0 {
      p := [c];
    } else {
      var d := NextInside(g, stuck, c);
      var q := StayInside(g, stuck, d, k - 1);
      WalkPrepend(g, c, q);
      p := [c] + q;
    }
  }

  /** A walk that repeats a node reaches a cycle. */
  lemma RepeatReachesCycle(g: Graph<Id>, p: seq<Id>)
    requires Walk(g, p) && !NoDuplicates(p)
    ensures ReachesCycle(g, p[0])
  {
    var i, j :| 0 <= i < j < |p| && p[i] == p[j];
    WalkSlice(g, p, 0, i + 1);
    assert WalkFromTo(g, p[0..i + 1], p[0], p[i]);
    WalkSlice(g, p, i, j + 1);
    var q := p[i..j + 1];
    assert ClosedWalk(g, q) && q[0] == p[i];
    assert OnCycle(g, p[i]);
  }

  /** In a finite inescapable set every member reaches a cycle. */
  lemma StuckReachesCycle(g: Graph<Id>, stuck: set<Id>, c: Id)
    requires c in stuck && Inescapable(g, stuck)
    ensures ReachesCycle(g, c)
  {
    hide Walk, Inescapable, NoDuplicates, ReachesCycle;
    var p := StayInside(g, stuck, c, |stuck|);
    DistinctCount(p);
    SubsetSize((set x | x in p), stuck);
    RepeatReachesCycle(g, p);
  }

  // ----- delivery waves -----

  /** The members of `affected`, in order, whose remaining dependencies are all done. */
  function Ready(affected: seq<Id>, deps: Graph<Id>, done: set<Id>): (r: seq<Id>)
    ensures forall c :: c in r <==> c in affected && c !in done && forall d :: d in Successors(deps, c) ==> d in done
    ensures NoDuplicates(affected) ==> NoDuplicates(r)
  {
    if affected == [] then []
    else
      var n := |affected| - 1;
      var rest := Ready(affected[..n], deps, done);
      SplitLast(affected);
      if affected[n] !in done && forall d :: d in Successors(deps, affected[n]) ==> d in done
      then rest + [affected[n]] else rest
  }

  function Remaining(affected: seq<Id>, done: set<Id>): (r: seq<Id>)
    ensures forall c :: c in r <==> c in affected && c !in done
    ensures NoDuplicates(affected) ==> NoDuplicates(r)
  {
    if affected == [] then []
    else
      var n := |affected| - 1;
      var rest := Remaining(affected[..n], done);
      SplitLast(affected);
      if affected[n] !in done then rest + [affected[n]] else rest
  }

  /** Dependencies between affected components. */
  ghost predicate Within(affected: seq<Id>, deps: Graph<Id>) {
    forall c, d :: c in affected && Edge(deps, c, d) ==> d in affected
  }

  /** The component is affected and its longest dependency chain has exactly `k` edges. */
  ghost predicate AtDepth(affected: seq<Id>, deps: Graph<Id>, k: nat, c: Id) {
    c in affected && HasWalk(deps, c, k) && !HasWalk(deps, c, k + 1)
  }

  /** The component is affected and sits on, or above, a dependency cycle. */
  ghost predicate Cyclic(affected: seq<Id>, deps: Graph<Id>, c: Id) {
    c in affected && ReachesCycle(deps, c)
  }

  ghost predicate Shallow(affected: seq<Id>, deps: Graph<Id>, k: nat, c: Id) {
    c in affected && !HasWalk(deps, c, k)
  }

  lemma AllDoneIsShallow(affected: seq<Id>, deps: Graph<Id>, done: set<Id>, k: nat, c: Id)
    requires Within(affected, deps) && c in affected
    requires forall x :: x in done <==> Shallow(affected, deps, k, x)
    ensures (forall d :: d in Successors(deps, c) ==> d in done) <==> !HasWalk(deps, c, k + 1)
  {
    hide HasWalk;
    HasWalkUnfold(deps, c, k);
    forall d | d in Successors(deps, c) ensures d in done <==> !HasWalk(deps, d, k) {
      assert Edge(deps, c, d);
    }
    if HasWalk(deps, c, k + 1) {
      var d :| Edge(deps, c, d) && HasWalk(deps, d, k);
      assert d in Successors(deps, c);
    } else {
      forall d | d in Successors(deps, c) ensures d in done { assert Edge(deps, c, d); }
    }
  }

  /** After `k` waves, what is done is what has no chain of `k` edges; so the next wave is exactly
      the components of depth `k`. */
  lemma ReadyIsDepth(affected: seq<Id>, deps: Graph<Id>, done: set<Id>, k: nat, c: Id)
    requires Within(affected, deps)
    requires forall x :: x in done <==> Shallow(affected, deps, k, x)
    ensures c in Ready(affected, deps, done) <==> AtDepth(affected, deps, k, c)
    ensures Shallow(affected, deps, k + 1, c) <==> c in done || c in Ready(affected, deps, done)
  {
    hide HasWalk, Successors;
    if c in affected { AllDoneIsShallow(affected, deps, done, k, c); }
    if HasWalk(deps, c, k + 1) { HasShorterWalk(deps, c, k + 1, k); }
  }

  /** When no component is ready, the remaining ones are exactly those that reach a cycle. */
  lemma RemainingIsCyclic(affected: seq<Id>, deps: Graph<Id>, done: set<Id>, k: nat, c: Id)
    requires Within(affected, deps) && Ready(affected, deps, done) == []
    requires forall x :: x in done <==> Shallow(affected, deps, k, x)
    ensures c in Remaining(affected, done) <==> Cyclic(affected, deps, c)
  {
    var stuck := set x | x in Remaining(affected, done);
    if c in stuck {
      forall x | x in stuck ensures HasNext(deps, stuck, x) {
        assert x !in Ready(affected, deps, done);
        var d :| d in Successors(deps, x) && d !in done;
        assert Edge(deps, x, d) && d in stuck;
      }
      hide HasNext;
      StuckReachesCycle(deps, stuck, c);
    }
    if Cyclic(affected, deps, c) { CycleGivesWalks(deps, c, k); }
  }

  /** Every wave but possibly the last holds, sorted, the components of its depth. */
  ghost predicate DepthWaves(affected: seq<Id>, deps: Graph<Id>, waves: seq<seq<Id>>) {
    forall k :: 0 <= k < |waves| ==> DepthWave(affected, deps, waves[k], k)
  }

  ghost predicate DepthWave(affected: seq<Id>, deps: Graph<Id>, wave: seq<Id>, k: nat) {
    wave != [] && SortedSet(wave) && forall c :: c in wave <==> AtDepth(affected, deps, k, c)
  }

  ghost predicate CyclicWave(affected: seq<Id>, deps: Graph<Id>, wave: seq<Id>) {
    wave != [] && SortedSet(wave) && forall c :: c in wave <==> Cyclic(affected, deps, c)
  }

  ghost predicate SortedSet(s: seq<Id>) { NoDuplicates(s) && Sorted(IdLeq, s) }

  lemma SortedWave(s: seq<Id>)
    requires NoDuplicates(s)
    ensures SortedSet(SortBy(IdLeq, s))
  {
    StringOrder();
    assert Preorder(IdLeq);
    SortBySorted(IdLeq, s);
    SortByNoDuplicates(IdLeq, s);
  }

  /** The whole plan: depth by depth, with one closing wave for everything that reaches a cycle. */
  ghost predicate IsPlan(affected: seq<Id>, deps: Graph<Id>, waves: seq<seq<Id>>) {
    if exists c :: Cyclic(affected, deps, c)
    then
      waves != [] && DepthWaves(affected, deps, waves[..|waves| - 1]) &&
      CyclicWave(affected, deps, waves[|waves| - 1])
    else DepthWaves(affected, deps, waves)
  }

  ghost predicate InSomeWave(waves: seq<seq<Id>>, c: Id) {
    exists k :: 0 <= k < |waves| && c in waves[k]
  }

  ghost predicate Covers(affected: seq<Id>, waves: seq<seq<Id>>) {
    forall c :: c in affected <==> InSomeWave(waves, c)
  }

  /** The loop's state: the waves so far and the components in them. */
  ghost predicate Planned(affected: seq<Id>, deps: Graph<Id>, waves: seq<seq<Id>>, done: set<Id>) {
    && (forall x :: x in done <==> Shallow(affected, deps, |waves|, x))
    && DepthWaves(affected, deps, waves)
    && (forall c :: c in done <==> InSomeWave(waves, c))
  }

  lemma PlanStarts(affected: seq<Id>, deps: Graph<Id>)
    ensures Planned(affected, deps, [], {})
  {
    forall x ensures !Shallow(affected, deps, 0, x) { HasWalkZero(deps, x); }
  }

  lemma PlanGrows(affected: seq<Id>, deps: Graph<Id>, waves: seq<seq<Id>>, done: set<Id>, wave: seq<Id>)
    requires Planned(affected, deps, waves, done) && DepthWave(affected, deps, wave, |waves|)
    requires forall c :: Shallow(affected, deps, |waves| + 1, c) <==> c in done || c in wave
    ensures Planned(affected, deps, waves + [wave], done + set c | c in wave)
  {
    hide Shallow, DepthWaves, DepthWave;
    NextWave(affected, deps, waves, wave);
    WaveMembers(waves, wave);
    assert |waves + [wave]| == |waves| + 1;
  }

  lemma PlanAdvances(affected: seq<Id>, deps: Graph<Id>, waves: seq<seq<Id>>, done: set<Id>)
    requires Planned(affected, deps, waves, done) && Within(affected, deps) && NoDuplicates(affected)
    requires Ready(affected, deps, done) != []
    ensures var wave := SortBy(IdLeq, Ready(affected, deps, done));
      Planned(affected, deps, waves + [wave], done + set c | c in wave) && (forall c :: c in wave ==> c in affected) &&
      wave != [] && wave[0] !in done
  {
    hide HasWalk, SortedSet, Shallow, AtDepth, DepthWaves;
    var ready := Ready(affected, deps, done);
    var wave := SortBy(IdLeq, ready);
    forall c ensures c in wave <==> AtDepth(affected, deps, |waves|, c)
             ensures Shallow(affected, deps, |waves| + 1, c) <==> c in done || c in wave {
      ReadyIsDepth(affected, deps, done, |waves|, c);
    }
    SortedWave(ready);
    PlanGrows(affected, deps, waves, done, wave);
    assert wave[0] in ready;
  }

  lemma PlanSticks(affected: seq<Id>, deps: Graph<Id>, waves: seq<seq<Id>>, done: set<Id>)
    requires Planned(affected, deps, waves, done) && Within(affected, deps) && NoDuplicates(affected)
    requires Ready(affected, deps, done) == [] && exists c :: c in affected && c !in done
    ensures var last := SortBy(IdLeq, Remaining(affected, done));
      IsPlan(affected, deps, waves + [last]) && Covers(affected, waves + [last])
  {
    hide HasWalk, SortedSet, ReachesCycle;
    var rest := Remaining(affected, done);
    forall c ensures c in rest <==> Cyclic(affected, deps, c) {
      RemainingIsCyclic(affected, deps, done, |waves|, c);
    }
    SortedWave(rest);
    LastWave(affected, deps, waves, SortBy(IdLeq, rest), done);
  }

  lemma PlanEnds(affected: seq<Id>, deps: Graph<Id>, waves: seq<seq<Id>>, done: set<Id>)
    requires Planned(affected, deps, waves, done) && forall c :: c in affected ==> c in done
    ensures IsPlan(affected, deps, waves) && Covers(affected, waves)
  {
    hide HasWalk, ReachesCycle;
    forall c ensures !Cyclic(affected, deps, c) {
      if ReachesCycle(deps, c) { CycleGivesWalks(deps, c, |waves|); }
    }
  }

  /** Plans the affected components provider first; terminates on every dependency graph. */
  method ChangePlanWaves(affected: seq<Id>, deps: Graph<Id>) returns (waves: seq<seq<Id>>)
    requires NoDuplicates(affected) && Within(affected, deps)
    ensures IsPlan(affected, deps, waves) && Covers(affected, waves)
  {
    hide Planned, IsPlan, Covers, NoDuplicates, Within, SortBy;
    waves := [];
    var done: set<Id> := {};
    var all := set c | c in affected;
    PlanStarts(affected, deps);
    while done != all
      invariant Planned(affected, deps, waves, done) && done <= all
      decreases all - done
    {
      var ready := Ready(affected, deps, done);
      if ready == [] {
        var c :| c in all && c !in done;
        PlanSticks(affected, deps, waves, done);
        return waves + [SortBy(IdLeq, Remaining(affected, done))];
      }
      PlanAdvances(affected, deps, waves, done);
      var wave := SortBy(IdLeq, ready);
      waves := waves + [wave];
      done := done + set c | c in wave;
    }
    PlanEnds(affected, deps, waves, done);
  }

  lemma WaveMembers(waves: seq<seq<Id>>, wave: seq<Id>)
    ensures forall c ::
      InSomeWave(waves + [wave], c) <==> c in wave || InSomeWave(waves, c)
  {
    var longer := waves + [wave];
    forall c | c in wave ensures InSomeWave(longer, c) {
      assert c in longer[|waves|];
    }
    forall c | InSomeWave(waves, c) ensures InSomeWave(longer, c) {
      var k :| 0 <= k < |waves| && c in waves[k];
      assert c in longer[k];
    }
  }

  lemma NextWave(affected: seq<Id>, deps: Graph<Id>, waves: seq<seq<Id>>, wave: seq<Id>)
    requires DepthWaves(affected, deps, waves) && DepthWave(affected, deps, wave, |waves|)
    ensures DepthWaves(affected, deps, waves + [wave])
  {
    hide DepthWave;
  }

  lemma LastWave(
    affected: seq<Id>, deps: Graph<Id>, waves: seq<seq<Id>>, last: seq<Id>, done: set<Id>)
    requires DepthWaves(affected, deps, waves) && CyclicWave(affected, deps, last)
    requires forall c :: c in done <==> InSomeWave(waves, c)
    requires forall c :: c in affected <==> c in done || c in last
    ensures IsPlan(affected, deps, waves + [last]) && Covers(affected, waves + [last])
  {
    hide DepthWaves, Cyclic;
    WaveMembers(waves, last);
    assert (waves + [last])[..|waves + [last]| - 1] == waves;
    assert Cyclic(affected, deps, last[0]);
  }

  /** In a plan every provider outside cycles comes strictly before its consumer. */
  lemma ProvidersComeFirst(affected: seq<Id>, deps: Graph<Id>, waves: seq<seq<Id>>, i: nat, c: Id, d: Id)
    requires Within(affected, deps) && IsPlan(affected, deps, waves) && Covers(affected, waves)
    requires i < |waves| && c in waves[i] && Edge(deps, c, d) && !ReachesCycle(deps, c)
    ensures exists j :: 0 <= j < i && d in waves[j]
  {
    assert c in affected;
    var j :| 0 <= j < |waves| && d in waves[j];
    if ReachesCycle(deps, d) {
      ReachesEdge(deps, c, d);
      ReachesCycleStep(deps, c, d);
    }
    InDepthWave(affected, deps, waves, i, c);
    InDepthWave(affected, deps, waves, j, d);
    hide HasWalk;
    HasWalkUnfold(deps, c, i);
    assert !HasWalk(deps, d, i);
    if j >= i { HasShorterWalk(deps, d, j, i); }
  }

  lemma InDepthWave(affected: seq<Id>, deps: Graph<Id>, waves: seq<seq<Id>>, i: nat, c: Id)
    requires IsPlan(affected, deps, waves) && i < |waves| && c in waves[i] && !ReachesCycle(deps, c)
    ensures AtDepth(affected, deps, i, c)
  {
    hide ReachesCycle, HasWalk;
    if exists c :: Cyclic(affected, deps, c) {
      if i < |waves| - 1 { assert DepthWave(affected, deps, waves[..|waves| - 1][i], i); }
    } else {
      assert DepthWave(affected, deps, waves[i], i);
    }
  }

  /** No component is in two waves. */
  lemma WavesAreDisjoint(affected: seq<Id>, deps: Graph<Id>, waves: seq<seq<Id>>, i: nat, j: nat, c: Id)
    requires IsPlan(affected, deps, waves) && i < j < |waves| && c in waves[i]
    ensures c !in waves[j]
  {
    hide HasWalk, ReachesCycle;
    if exists c :: Cyclic(affected, deps, c) {
      assert DepthWave(affected, deps, waves[..|waves| - 1][i], i);
      if c in waves[j] {
        if j < |waves| - 1 {
          assert DepthWave(affected, deps, waves[..|waves| - 1][j], j);
          HasShorterWalk(deps, c, j, i + 1);
        } else {
          CycleGivesWalks(deps, c, i + 1);
        }
      }
    } else {
      assert DepthWave(affected, deps, waves[i], i) && DepthWave(affected, deps, waves[j], j);
      if c in waves[j] { HasShorterWalk(deps, c, j, i + 1); }
    }
  }

  /** The components of a wave are listed by their texts, each once. */
  lemma WavesAreListed(s: seq<Id>, i: nat, j: nat)
    requires SortedSet(s) && i < j < |s|
    ensures StringLeq(s[i].text, s[j].text) && s[i] != s[j]
  {
    assert IdLeq(s[i], s[j]);
  }
}
