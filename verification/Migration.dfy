/** Migration documents: validation, the normal form and lineage (cli/src/modelable/migration.py). */
module Migration {
  import opened Text
  import opened Ordering
  import opened Graphs
  import Identity

  /** A declaration or path reference, as text. */
  datatype Ref = Ref(text: string)

  datatype Mapping = Mapping(kind: string, sources: seq<Ref>, targets: seq<Ref>)

  datatype MigrationError = BadMapping(index: nat) | SharedSource(index: nat) | Cyclic

  // ----- orders -----

  predicate RefLeq(a: Ref, b: Ref) { StringLeq(a.text, b.text) }

  predicate RefsLeq(a: seq<Ref>, b: seq<Ref>) { LexLeq(RefLeq, a, b) }

  /** The key `(kind, tuple(sources), tuple(targets))`. */
  predicate MappingLeq(a: Mapping, b: Mapping) {
    if a.kind != b.kind then StringLeq(a.kind, b.kind)
    else if a.sources != b.sources then RefsLeq(a.sources, b.sources)
    else RefsLeq(a.targets, b.targets)
  }

  lemma RefOrder()
    ensures TotalOrder(RefLeq)
  {
    hide StringLeq;
    StringOrder();
  }

  lemma RefsOrder()
    ensures TotalOrder(RefsLeq)
  {
    RefOrder();
    forall a, b ensures (RefsLeq(a, b) || RefsLeq(b, a)) && (RefsLeq(a, b) && RefsLeq(b, a) ==> a == b) {
      LexTotal(RefLeq, a, b);
    }
    forall a, b, c | RefsLeq(a, b) && RefsLeq(b, c) ensures RefsLeq(a, c) {
      LexTransitive(RefLeq, a, b, c);
    }
  }

  lemma MappingOrder()
    ensures TotalOrder(MappingLeq)
  {
    hide StringLeq, RefsLeq;
    StringOrder();
    RefsOrder();
  }

  // ----- what each mapping must look like -----

  predicate Canonical(r: Ref) {
    match Identity.ParseReference(r.text)
    case Ok(reference) => Identity.RenderReference(reference) == r.text
    case Err(_) => false
  }

  predicate IsKind(kind: string) {
    kind in ["rename", "move", "field_move", "split", "merge", "replacement"]
  }

  predicate Cardinality(kind: string, sources: nat, targets: nat) {
    if kind in ["rename", "move", "field_move", "replacement"] then sources == 1 && targets == 1
    else if kind == "split" then sources == 1 && targets >= 2
    else if kind == "merge" then sources >= 2 && targets == 1
    else true
  }

  predicate IsPath(r: Ref) { '#' in r.text }

  ghost predicate ValidReferences(refs: seq<Ref>) {
    refs != [] && NoDuplicates(refs) && forall r :: r in refs ==> Canonical(r)
  }

  /** Fields move to fields and declarations to declarations, in the numbers the kind asks for. */
  ghost predicate WellFormed(m: Mapping) {
    && IsKind(m.kind) && ValidReferences(m.sources) && ValidReferences(m.targets)
    && Cardinality(m.kind, |m.sources|, |m.targets|)
    && (forall r :: r in m.sources + m.targets ==> (IsPath(r) <==> m.kind == "field_move"))
  }

  /** `tuple(sorted(set(value)))`, refused when empty, repeating or not canonical. */
  function CanonicalReferences(value: seq<Ref>): (r: Result<seq<Ref>, ()>)
    ensures r.Ok? <==> ValidReferences(value)
    ensures r.Ok? ==> r.value == SortBy(RefLeq, value)
  {
    var distinct := Distinct(value);
    var result := SortBy(RefLeq, distinct);
    DistinctLength(value);
    if value == [] then Err(())
    else if |result| != |value| then Err(())
    else if exists r :: r in result && !Canonical(r) then Err(())
    else Ok(result)
  }

  lemma {:induction false} DistinctLength<T(!new)>(s: seq<T>)
    ensures |Distinct(s)| <= |s|
    ensures |Distinct(s)| == |s| <==> NoDuplicates(s)
    ensures NoDuplicates(s) ==> Distinct(s) == s
  {
    if s != [] {
      var n := |s| - 1;
      DistinctLength(s[..n]);
      SplitLast(s);
      if NoDuplicates(s[..n]) && s[n] !in s[..n] { assert NoDuplicates(s); }
    }
  }

  function NormalMapping(m: Mapping): Mapping {
    Mapping(m.kind, SortBy(RefLeq, m.sources), SortBy(RefLeq, m.targets))
  }

  function ParseMapping(m: Mapping): (r: Result<Mapping, ()>)
    ensures r.Ok? <==> WellFormed(m)
    ensures r.Ok? ==> r.value == NormalMapping(m)
  {
    if !IsKind(m.kind) then Err(())
    else
      match (CanonicalReferences(m.sources), CanonicalReferences(m.targets))
      case (Ok(sources), Ok(targets)) =>
        assert forall r :: r in sources + targets <==> r in m.sources + m.targets;
        if !Cardinality(m.kind, |sources|, |targets|) then Err(())
        else if m.kind == "field_move" then
          if exists r :: r in sources + targets && !IsPath(r) then Err(())
          else Ok(Mapping(m.kind, sources, targets))
        else if exists r :: r in sources + targets && IsPath(r) then Err(())
        else Ok(Mapping(m.kind, sources, targets))
      case _ => Err(())
  }

  // ----- the document as a graph -----

  /** Some mapping takes `a` to `b`. */
  ghost predicate Leads(ms: seq<Mapping>, a: Ref, b: Ref) {
    exists i :: 0 <= i < |ms| && a in ms[i].sources && b in ms[i].targets
  }

  function TargetsOf(ms: seq<Mapping>, a: Ref): seq<Ref> {
    if ms == [] then []
    else
      TargetsOf(ms[..|ms| - 1], a) + if a in ms[|ms| - 1].sources then ms[|ms| - 1].targets else []
  }

  function SourcesOf(ms: seq<Mapping>): set<Ref> {
    set i, a | 0 <= i < |ms| && a in ms[i].sources :: a
  }

  /** Every source with the targets its mappings give it. */
  function LineageGraph(ms: seq<Mapping>): Graph<Ref> {
    map a | a in SourcesOf(ms) :: TargetsOf(ms, a)
  }

  lemma {:induction false} TargetsOfMembers(ms: seq<Mapping>, a: Ref, b: Ref)
    ensures b in TargetsOf(ms, a) <==> Leads(ms, a, b)
  {
    if ms != [] {
      var n := |ms| - 1;
      TargetsOfMembers(ms[..n], a, b);
      if Leads(ms[..n], a, b) {
        var i :| 0 <= i < n && a in ms[..n][i].sources && b in ms[..n][i].targets;
        assert ms[i] == ms[..n][i];
      }
      if Leads(ms, a, b) && !(a in ms[n].sources && b in ms[n].targets) {
        var i :| 0 <= i < |ms| && a in ms[i].sources && b in ms[i].targets;
        assert ms[..n][i] == ms[i];
      }
    }
  }

  lemma LineageEdges(ms: seq<Mapping>, a: Ref, b: Ref)
    ensures Edge(LineageGraph(ms), a, b) <==> Leads(ms, a, b)
  {
    TargetsOfMembers(ms, a, b);
  }

  /** Mappings that relate the same references make the same walks. */
  lemma SameLineage(a: seq<Mapping>, b: seq<Mapping>)
    requires forall x, y :: Leads(a, x, y) <==> Leads(b, x, y)
    ensures forall x, y :: Edge(LineageGraph(a), x, y) <==> Edge(LineageGraph(b), x, y)
    ensures Acyclic(LineageGraph(a)) <==> Acyclic(LineageGraph(b))
  {
    forall x, y ensures Edge(LineageGraph(a), x, y) <==> Edge(LineageGraph(b), x, y) {
      LineageEdges(a, x, y);
      LineageEdges(b, x, y);
    }
    SameEdgesSameCycles(LineageGraph(a), LineageGraph(b));
  }

  // ----- cycle rejection -----

  /** The search between two visits: the nodes being visited form a walk, the visited ones
      finished in order. */
  ghost predicate OnPath(
    g: Graph<Ref>, visiting: set<Ref>, visited: set<Ref>, stack: seq<Ref>, finished: seq<Ref>)
  {
    && (stack != [] ==> Walk(g, stack))
    && NoDuplicates(stack)
    && visiting == (set x | x in stack)
    && visited == (set x | x in finished)
    && FinishingOrder(g, finished)
  }

  lemma Enter(
    g: Graph<Ref>, visiting: set<Ref>, visited: set<Ref>, stack: seq<Ref>, finished: seq<Ref>, n: Ref)
    requires OnPath(g, visiting, visited, stack, finished) && n !in visiting
    requires stack != [] ==> Edge(g, stack[|stack| - 1], n)
    ensures OnPath(g, visiting + {n}, visited, stack + [n], finished)
  {
    WalkAppend(g, stack, n);
  }

  lemma Leave(
    g: Graph<Ref>, visiting: set<Ref>, visited: set<Ref>, stack: seq<Ref>, finished: seq<Ref>, n: Ref)
    requires OnPath(g, visiting, visited, stack + [n], finished)
    requires forall d :: d in Successors(g, n) ==> d in visited
    ensures OnPath(g, visiting - {n}, visited + {n}, stack, finished + [n])
  {
    FinishingOrderExtends(g, finished, n);
    var full := stack + [n];
    assert forall i :: 0 <= i < |stack| ==> full[i] == stack[i] && full[i] != full[|stack|];
    if stack != [] {
      WalkSlice(g, full, 0, |stack|);
      assert full[0..|stack|] == stack;
    }
  }

  lemma Meet(
    g: Graph<Ref>, visiting: set<Ref>, visited: set<Ref>, stack: seq<Ref>, finished: seq<Ref>, n: Ref)
    requires OnPath(g, visiting, visited, stack, finished) && n in visiting
    requires stack != [] ==> Edge(g, stack[|stack| - 1], n)
    ensures !Acyclic(g)
  {
    var i :| 0 <= i < |stack| && stack[i] == n;
    WalkSlice(g, stack, i, |stack|);
    WalkAppend(g, stack[i..|stack|], n);
    assert ClosedWalk(g, stack[i..|stack|] + [n]);
  }

  lemma AllFinishedAcyclic(
    g: Graph<Ref>, visiting: set<Ref>, visited: set<Ref>, stack: seq<Ref>, finished: seq<Ref>)
    requires OnPath(g, visiting, visited, stack, finished) && g.Keys <= visited
    ensures Acyclic(g)
  {
    forall p ensures !ClosedWalk(g, p) {
      if ClosedWalk(g, p) {
        assert Edge(g, p[0], p[1]);
        assert p[0] in finished;
        FinishingOrderAcyclic(g, finished, p[0]);
        ReachesSelf(g, p[0]);
        assert OnCycle(g, p[0]);
      }
    }
  }

  /** `sorted(graph.get(node, ()))`. */
  function SortedSuccessors(g: Graph<Ref>, n: Ref): (r: seq<Ref>)
    ensures forall d :: d in r <==> d in Successors(g, n)
  {
    SortBy(RefLeq, Distinct(Successors(g, n)))
  }

  /** The closure `_reject_cycles` builds around `visiting` and `visited`. */
  class CycleCheck {
    const graph: Graph<Ref>
    var visiting: set<Ref>
    var visited: set<Ref>
    ghost var stack: seq<Ref>
    ghost var finished: seq<Ref>

    ghost predicate Valid()
      reads this
    {
      OnPath(graph, visiting, visited, stack, finished)
    }

    constructor (graph: Graph<Ref>)
      ensures this.graph == graph && Valid() && stack == [] && visiting == {} && visited == {}
    {
      this.graph := graph;
      visiting, visited, stack, finished := {}, {}, [], [];
    }

    /** False stands for the raised error, after which the search is abandoned. */
    method Visit(node: Ref) returns (ok: bool)
      requires Valid() && (stack != [] ==> Edge(graph, stack[|stack| - 1], node))
      modifies this
      ensures ok ==> Valid() && stack == old(stack) && visiting == old(visiting)
      ensures ok ==> node in visited && old(visited) <= visited
      ensures !ok ==> !Acyclic(graph)
      decreases |graph.Keys - visiting|, 1
    {
      hide OnPath, Edge, Acyclic, Successors, SortedSuccessors;
      if node in visiting {
        Meet(graph, visiting, visited, stack, finished, node);
        return false;
      }
      if node in visited {
        return true;
      }
      ghost var below := stack;
      Begin(node);
      ok := VisitTargets(node, SortedSuccessors(graph, node));
      if ok { Finish(below, node); }
    }

    method Begin(node: Ref)
      requires Valid() && node !in visiting && (stack != [] ==> Edge(graph, stack[|stack| - 1], node))
      modifies `visiting, `stack
      ensures Valid() && stack == old(stack) + [node]
      ensures visiting == old(visiting) + {node} && visiting - {node} == old(visiting)
    {
      hide OnPath, Edge;
      Enter(graph, visiting, visited, stack, finished, node);
      visiting := visiting + {node};
      stack := stack + [node];
      assert visiting - {node} == old(visiting);
    }

    method Finish(ghost below: seq<Ref>, node: Ref)
      requires Valid() && stack == below + [node] && forall d :: d in Successors(graph, node) ==> d in visited
      modifies this
      ensures Valid() && stack == below
      ensures visiting == old(visiting) - {node} && visited == old(visited) + {node}
    {
      hide OnPath, Successors;
      Leave(graph, visiting, visited, below, finished, node);
      visiting := visiting - {node};
      visited := visited + {node};
      stack := below;
      finished := finished + [node];
    }

    /** The loop over the targets of the node being visited. */
    method VisitTargets(node: Ref, targets: seq<Ref>) returns (ok: bool)
      requires Valid() && stack != [] && stack[|stack| - 1] == node && node in visiting
      requires targets == SortedSuccessors(graph, node)
      modifies this
      ensures ok ==> Valid() && stack == old(stack) && visiting == old(visiting)
      ensures ok ==> old(visited) <= visited && forall d :: d in targets ==> d in visited
      ensures !ok ==> !Acyclic(graph)
      decreases |graph.Keys - (visiting - {node})|, 0
    {
      hide OnPath, Acyclic, SortedSuccessors;
      var i := 0;
      while i < |targets|
        invariant 0 <= i <= |targets|
        invariant Valid() && stack == old(stack) && visiting == old(visiting)
        invariant old(visited) <= visited && forall k :: 0 <= k < i ==> targets[k] in visited
      {
        assert targets[i] in Successors(graph, node);
        assert node in graph.Keys - (visiting - {node});
        SmallerSet(graph.Keys - visiting, graph.Keys - (visiting - {node}));
        ok := Visit(targets[i]);
        if !ok { return; }
        i := i + 1;
      }
      ok := true;
    }
  }

  /** `setdefault(source, set()).update(targets)` over every mapping. */
  method BuildGraph(ms: seq<Mapping>) returns (graph: Graph<Ref>)
    ensures graph.Keys == SourcesOf(ms)
    ensures forall a, b :: Edge(graph, a, b) <==> Leads(ms, a, b)
  {
    graph := map[];
    var i := 0;
    while i < |ms|
      invariant 0 <= i <= |ms|
      invariant graph.Keys == SourcesOf(ms[..i])
      invariant forall a, b :: Edge(graph, a, b) <==> Leads(ms[..i], a, b)
    {
      ghost var before := graph;
      var j := 0;
      while j < |ms[i].sources|
        invariant 0 <= j <= |ms[i].sources|
        invariant graph.Keys == before.Keys + (set x | x in ms[i].sources[..j])
        invariant forall a, b :: Edge(graph, a, b) <==>
          (Edge(before, a, b) || (a in ms[i].sources[..j] && b in ms[i].targets))
      {
        var source := ms[i].sources[j];
        TakeOneMore(ms[i].sources, j);
        graph := graph[source := Successors(graph, source) + ms[i].targets];
        j := j + 1;
      }
      TakeAll(ms[i].sources);
      OneMoreMapping(ms, i);
      i := i + 1;
    }
    TakeAll(ms);
  }

  lemma OneMoreMapping(ms: seq<Mapping>, i: nat)
    requires i < |ms|
    ensures SourcesOf(ms[..i + 1]) == SourcesOf(ms[..i]) + (set x | x in ms[i].sources)
    ensures forall a, b :: Leads(ms[..i + 1], a, b) <==>
      (Leads(ms[..i], a, b) || (a in ms[i].sources && b in ms[i].targets))
  {
    forall a, b ensures Leads(ms[..i + 1], a, b) <==>
        (Leads(ms[..i], a, b) || (a in ms[i].sources && b in ms[i].targets)) {
      TargetsOfMembers(ms[..i + 1], a, b);
      TargetsOfMembers(ms[..i], a, b);
      TakeOneMore(ms, i);
    }
  }

  lemma BuiltGraph(ms: seq<Mapping>, graph: Graph<Ref>)
    requires forall a, b :: Edge(graph, a, b) <==> Leads(ms, a, b)
    ensures Acyclic(graph) <==> Acyclic(LineageGraph(ms))
  {
    hide LineageGraph, Leads, Acyclic;
    forall a, b ensures Edge(graph, a, b) <==> Edge(LineageGraph(ms), a, b) { LineageEdges(ms, a, b); }
    SameEdgesSameCycles(graph, LineageGraph(ms));
  }

  /** `_reject_cycles`: passes exactly the acyclic documents. */
  method RejectCycles(ms: seq<Mapping>) returns (ok: bool)
    ensures ok <==> Acyclic(LineageGraph(ms))
  {
    hide Acyclic, OnPath, LineageGraph, Leads, SourcesOf, SortedNodes;
    var graph := BuildGraph(ms);
    BuiltGraph(ms, graph);
    var check := new CycleCheck(graph);
    var nodes := SortedNodes(ms);
    var i := 0;
    while i < |nodes|
      invariant 0 <= i <= |nodes|
      invariant check.Valid() && check.stack == []
      invariant forall k :: 0 <= k < i ==> nodes[k] in check.visited
    {
      ok := check.Visit(nodes[i]);
      if !ok { return; }
      i := i + 1;
    }
    AllFinishedAcyclic(graph, check.visiting, check.visited, check.stack, check.finished);
    ok := true;
  }

  /** `sorted(graph)`. */
  function SortedNodes(ms: seq<Mapping>): (r: seq<Ref>)
    ensures forall a :: a in r <==> a in SourcesOf(ms)
  {
    SortBy(RefLeq, Distinct(AllSources(ms)))
  }

  function AllSources(ms: seq<Mapping>): (r: seq<Ref>)
    ensures forall a :: a in r <==> a in SourcesOf(ms)
  {
    if ms == [] then []
    else
      var n := |ms| - 1;
      OneMoreMapping(ms, n);
      TakeAll(ms);
      AllSources(ms[..n]) + ms[n].sources
  }

  // ----- parsing a document -----

  ghost predicate Share(m: Mapping, n: Mapping) {
    exists r :: r in m.sources && r in n.sources
  }

  ghost predicate SourcesDisjoint(ms: seq<Mapping>) {
    forall i, j :: 0 <= i < j < |ms| ==> !Share(ms[i], ms[j])
  }

  ghost predicate AllWellFormed(ms: seq<Mapping>) {
    forall i :: 0 <= i < |ms| ==> WellFormed(ms[i])
  }

  ghost predicate Acceptable(ms: seq<Mapping>) {
    AllWellFormed(ms) && SourcesDisjoint(ms) && Acyclic(LineageGraph(ms))
  }

  function Normalized(ms: seq<Mapping>): seq<Mapping> { Mapped(NormalMapping, ms) }

  function NormalForm(ms: seq<Mapping>): seq<Mapping> { SortBy(MappingLeq, Normalized(ms)) }

  lemma NormalizedLeads(ms: seq<Mapping>, x: Ref, y: Ref)
    ensures Leads(ms, x, y) <==> Leads(Normalized(ms), x, y)
  {
    hide SortBy;
    var ns := Normalized(ms);
    if Leads(ms, x, y) {
      var i :| 0 <= i < |ms| && x in ms[i].sources && y in ms[i].targets;
      assert x in ns[i].sources && y in ns[i].targets;
    }
    if Leads(ns, x, y) {
      var i :| 0 <= i < |ns| && x in ns[i].sources && y in ns[i].targets;
      assert x in ms[i].sources && y in ms[i].targets;
    }
  }

  lemma NormalizedLineage(ms: seq<Mapping>)
    ensures Acyclic(LineageGraph(Normalized(ms))) <==> Acyclic(LineageGraph(ms))
  {
    hide Acyclic, LineageGraph, Leads, Normalized;
    forall x, y ensures Leads(ms, x, y) <==> Leads(Normalized(ms), x, y) { NormalizedLeads(ms, x, y); }
    SameLineage(ms, Normalized(ms));
  }

  /** What parsing answers: the normal form of an acceptable document, else the first thing wrong. */
  ghost predicate Verdict(ms: seq<Mapping>, r: Result<seq<Mapping>, MigrationError>) {
    match r
    case Ok(value) => Acceptable(ms) && value == NormalForm(ms)
    case Err(BadMapping(i)) =>
      i < |ms| && AllWellFormed(ms[..i]) && SourcesDisjoint(ms[..i]) && !WellFormed(ms[i])
    case Err(SharedSource(i)) =>
      i < |ms| && AllWellFormed(ms[..i + 1]) && SourcesDisjoint(ms[..i]) && !SourcesDisjoint(ms[..i + 1])
    case Err(Cyclic) => AllWellFormed(ms) && SourcesDisjoint(ms) && !Acyclic(LineageGraph(ms))
  }

  /** Every refusal is justified. */
  lemma VerdictDecides(ms: seq<Mapping>, r: Result<seq<Mapping>, MigrationError>)
    requires Verdict(ms, r)
    ensures r.Ok? <==> Acceptable(ms)
  {
    hide WellFormed, Share, LineageGraph, Acyclic, NormalForm;
    if r.Err? && r.error.SharedSource? {
      var k := r.error.index + 1;
      var i, j :| 0 <= i < j < k && Share(ms[..k][i], ms[..k][j]);
      assert Share(ms[i], ms[j]);
    }
  }

  /** The first `i` mappings have passed. */
  ghost predicate Passed(ms: seq<Mapping>, i: nat, normalized: seq<Mapping>, seenSources: set<Ref>) {
    && i <= |ms| && normalized == Normalized(ms[..i]) && seenSources == SourcesOf(ms[..i])
    && AllWellFormed(ms[..i]) && SourcesDisjoint(ms[..i])
  }

  lemma PassedStart(ms: seq<Mapping>)
    ensures Passed(ms, 0, [], {})
  {
  }

  lemma Refuse(ms: seq<Mapping>, i: nat, normalized: seq<Mapping>, seenSources: set<Ref>)
    requires Passed(ms, i, normalized, seenSources) && i < |ms| && !WellFormed(ms[i])
    ensures Verdict(ms, Err(BadMapping(i)))
  {
    hide WellFormed;
  }

  lemma OneMoreWellFormed(ms: seq<Mapping>, i: nat)
    requires i < |ms| && AllWellFormed(ms[..i]) && WellFormed(ms[i])
    ensures AllWellFormed(ms[..i + 1])
  {
    hide WellFormed;
    TakeOneMore(ms, i);
  }

  /** The next mapping shares a source exactly when one of its sources was seen. */
  lemma OneMoreDisjoint(ms: seq<Mapping>, i: nat)
    requires i < |ms| && SourcesDisjoint(ms[..i])
    ensures SourcesDisjoint(ms[..i + 1]) <==> SourcesOf(ms[..i]) * (set r | r in ms[i].sources) == {}
  {
    var next := ms[..i + 1];
    TakeOneMore(ms, i);
    if SourcesDisjoint(next) {
      forall r | r in SourcesOf(ms[..i]) ensures r !in ms[i].sources {
        var k :| 0 <= k < i && r in ms[..i][k].sources;
        assert !Share(next[k], next[i]);
      }
    } else {
      var k, l :| 0 <= k < l < i + 1 && Share(next[k], next[l]);
      assert l == i;
      var r :| r in next[k].sources && r in next[l].sources;
      assert r in ms[..i][k].sources;
      assert r in SourcesOf(ms[..i]) * (set x | x in ms[i].sources);
    }
  }

  lemma Collide(ms: seq<Mapping>, i: nat, normalized: seq<Mapping>, seenSources: set<Ref>)
    requires Passed(ms, i, normalized, seenSources) && i < |ms| && WellFormed(ms[i])
    requires seenSources * (set r | r in ms[i].sources) != {}
    ensures Verdict(ms, Err(SharedSource(i)))
  {
    hide WellFormed, AllWellFormed, SourcesDisjoint, SourcesOf, Normalized;
    OneMoreWellFormed(ms, i);
    OneMoreDisjoint(ms, i);
  }

  lemma NormalizedOneMore(ms: seq<Mapping>, i: nat)
    requires i < |ms|
    ensures Normalized(ms[..i + 1]) == Normalized(ms[..i]) + [NormalMapping(ms[i])]
  {
    hide NormalMapping;
    TakeOneMore(ms, i);
  }

  lemma Advance(ms: seq<Mapping>, i: nat, normalized: seq<Mapping>, seenSources: set<Ref>)
    requires Passed(ms, i, normalized, seenSources) && i < |ms| && WellFormed(ms[i])
    requires seenSources * (set r | r in ms[i].sources) == {}
    ensures Passed(ms, i + 1, normalized + [NormalMapping(ms[i])], seenSources + (set r | r in ms[i].sources))
  {
    hide WellFormed, AllWellFormed, SourcesDisjoint, SourcesOf, Normalized, NormalMapping;
    OneMoreWellFormed(ms, i);
    OneMoreDisjoint(ms, i);
    OneMoreMapping(ms, i);
    NormalizedOneMore(ms, i);
  }

  lemma Conclude(ms: seq<Mapping>, normalized: seq<Mapping>, seenSources: set<Ref>)
    requires Passed(ms, |ms|, normalized, seenSources)
    ensures Verdict(ms, if Acyclic(LineageGraph(normalized)) then Ok(SortBy(MappingLeq, normalized)) else Err(Cyclic))
  {
    hide WellFormed, SourcesOf, Normalized, SortBy, LineageGraph, Acyclic;
    TakeAll(ms);
    NormalizedLineage(ms);
  }

  /** Accepts exactly the documents whose mappings are well formed, share no source and have no
      cycle, and says which of the three failed first; the result is the sorted normal form. */
  method ParseMigrationDocument(ms: seq<Mapping>) returns (r: Result<seq<Mapping>, MigrationError>)
    ensures Verdict(ms, r)
    ensures r.Ok? <==> Acceptable(ms)
  {
    hide *;
    var normalized: seq<Mapping> := [];
    var seenSources: set<Ref> := {};
    var i := 0;
    PassedStart(ms);
    while i < |ms|
      invariant 0 <= i <= |ms| && Passed(ms, i, normalized, seenSources)
    {
      match ParseMapping(ms[i]) {
        case Err(_) =>
          Refuse(ms, i, normalized, seenSources);
          r := Err(BadMapping(i));
          VerdictDecides(ms, r);
          return;
        case Ok(mapping) =>
          var sources := set x | x in mapping.sources;
          SameSources(ms[i]);
          if seenSources * sources != {} {
            Collide(ms, i, normalized, seenSources);
            r := Err(SharedSource(i));
            VerdictDecides(ms, r);
            return;
          }
          Advance(ms, i, normalized, seenSources);
          seenSources := seenSources + sources;
          normalized := normalized + [mapping];
          i := i + 1;
      }
    }
    Conclude(ms, normalized, seenSources);
    var acyclic := RejectCycles(normalized);
    r := if acyclic then Ok(SortBy(MappingLeq, normalized)) else Err(Cyclic);
    VerdictDecides(ms, r);
  }

  lemma SameSources(m: Mapping)
    ensures (set x | x in NormalMapping(m).sources) == (set x | x in m.sources)
  {
  }

  // ----- the normal form -----

  ghost predicate SameMapping(m: Mapping, n: Mapping) {
    m.kind == n.kind && multiset(m.sources) == multiset(n.sources) && multiset(m.targets) == multiset(n.targets)
  }

  ghost predicate Pointwise(a: seq<Mapping>, b: seq<Mapping>) {
    |a| == |b| && forall i :: 0 <= i < |a| ==> SameMapping(a[i], b[i])
  }

  /** The same document with its mappings, and the references in each, listed in another order. */
  ghost predicate SameUpToOrder(a: seq<Mapping>, b: seq<Mapping>) {
    exists c :: multiset(a) == multiset(c) && Pointwise(c, b)
  }

  lemma SameMembers<T(!new)>(a: seq<T>, b: seq<T>)
    requires multiset(a) == multiset(b)
    ensures |a| == |b| && forall x :: x in a <==> x in b
    ensures NoDuplicates(a) ==> NoDuplicates(b)
  {
    assert |multiset(a)| == |multiset(b)|;
    forall x ensures x in a <==> x in b { assert x in multiset(a) <==> x in multiset(b); }
    if NoDuplicates(a) {
      forall x ensures multiset(b)[x] <= 1 { MultiplicityAtMostOne(a, x); }
      NoDuplicatesFromMultiset(b);
    }
  }

  lemma WellFormedSame(m: Mapping, n: Mapping)
    requires SameMapping(m, n) && WellFormed(m)
    ensures WellFormed(n)
  {
    hide NoDuplicates, Canonical, IsKind, Cardinality, IsPath;
    SameMembers(m.sources, n.sources);
    SameMembers(m.targets, n.targets);
  }

  lemma NormalSame(m: Mapping, n: Mapping)
    ensures SameMapping(m, NormalMapping(m))
    ensures SameMapping(m, n) ==> NormalMapping(m) == NormalMapping(n)
    ensures NormalMapping(m) == NormalMapping(n) ==> SameMapping(m, n)
  {
    hide SortBy, RefLeq;
    RefOrder();
    if SameMapping(m, n) {
      SortByCanonical(RefLeq, m.sources, n.sources);
      SortByCanonical(RefLeq, m.targets, n.targets);
    }
  }

  lemma AcceptablePointwise(a: seq<Mapping>, b: seq<Mapping>)
    requires Pointwise(a, b) && Acceptable(a)
    ensures Acceptable(b)
  {
    hide WellFormed, Acyclic, LineageGraph;
    forall i | 0 <= i < |a|
      ensures WellFormed(b[i]) && (forall x :: x in a[i].sources <==> x in b[i].sources)
      ensures forall x :: x in a[i].targets <==> x in b[i].targets
    {
      WellFormedSame(a[i], b[i]);
      SameMembers(a[i].sources, b[i].sources);
      SameMembers(a[i].targets, b[i].targets);
    }
    DisjointSameSources(a, b);
    SameLineageSamePlaces(a, b);
  }

  lemma DisjointSameSources(a: seq<Mapping>, b: seq<Mapping>)
    requires |a| == |b| && forall i, x :: 0 <= i < |a| ==> (x in a[i].sources <==> x in b[i].sources)
    requires SourcesDisjoint(a)
    ensures SourcesDisjoint(b)
  {
    forall i, j | 0 <= i < j < |b| ensures !Share(b[i], b[j]) {
      assert !Share(a[i], a[j]);
    }
  }

  lemma SameLineageSamePlaces(a: seq<Mapping>, b: seq<Mapping>)
    requires |a| == |b|
    requires forall i, x :: 0 <= i < |a| ==> (x in a[i].sources <==> x in b[i].sources)
    requires forall i, x :: 0 <= i < |a| ==> (x in a[i].targets <==> x in b[i].targets)
    ensures Acyclic(LineageGraph(a)) <==> Acyclic(LineageGraph(b))
  {
    hide Acyclic, LineageGraph;
    forall x, y ensures Leads(a, x, y) <==> Leads(b, x, y) {
      if Leads(a, x, y) {
        var i :| 0 <= i < |a| && x in a[i].sources && y in a[i].targets;
        assert x in b[i].sources && y in b[i].targets;
      }
      if Leads(b, x, y) {
        var i :| 0 <= i < |b| && x in b[i].sources && y in b[i].targets;
        assert x in a[i].sources && y in a[i].targets;
      }
    }
    SameLineage(a, b);
  }

  lemma SameLineagePermuted(a: seq<Mapping>, b: seq<Mapping>)
    requires multiset(a) == multiset(b)
    ensures Acyclic(LineageGraph(a)) <==> Acyclic(LineageGraph(b))
  {
    hide Acyclic, LineageGraph;
    forall x, y ensures Leads(a, x, y) <==> Leads(b, x, y) {
      LeadsPermuted(a, b, x, y);
      LeadsPermuted(b, a, x, y);
    }
    SameLineage(a, b);
  }

  lemma LeadsPermuted(a: seq<Mapping>, b: seq<Mapping>, x: Ref, y: Ref)
    requires multiset(a) == multiset(b)
    ensures Leads(a, x, y) ==> Leads(b, x, y)
  {
    if Leads(a, x, y) {
      var i :| 0 <= i < |a| && x in a[i].sources && y in a[i].targets;
      assert a[i] in multiset(b);
      var j :| 0 <= j < |b| && b[j] == a[i];
    }
  }

  lemma AcceptablePermuted(a: seq<Mapping>, b: seq<Mapping>)
    requires multiset(a) == multiset(b) && Acceptable(a)
    ensures Acceptable(b)
  {
    hide WellFormed, Acyclic, LineageGraph, Share;
    forall i | 0 <= i < |b| ensures WellFormed(b[i]) {
      assert b[i] in multiset(a);
    }
    forall i, j | 0 <= i < j < |b| ensures !Share(b[i], b[j]) {
      var k, l := PermutedPair(b, a, i, j);
      ShareSymmetric(a[k], a[l]);
    }
    SameLineagePermuted(a, b);
  }

  lemma ShareSymmetric(m: Mapping, n: Mapping)
    ensures Share(m, n) <==> Share(n, m)
  {
  }

  lemma NormalizedPointwise(ms: seq<Mapping>)
    ensures Pointwise(ms, Normalized(ms)) && Pointwise(Normalized(ms), ms)
  {
    hide NormalMapping;
    forall i | 0 <= i < |ms| ensures SameMapping(ms[i], Normalized(ms)[i]) { NormalSame(ms[i], ms[i]); }
  }

  lemma NormalFormAcceptable(ms: seq<Mapping>)
    ensures Acceptable(ms) <==> Acceptable(NormalForm(ms))
  {
    hide Acceptable, Pointwise, Normalized, SortBy;
    NormalizedPointwise(ms);
    if Acceptable(ms) {
      AcceptablePointwise(ms, Normalized(ms));
      AcceptablePermuted(Normalized(ms), NormalForm(ms));
    }
    if Acceptable(NormalForm(ms)) {
      AcceptablePermuted(NormalForm(ms), Normalized(ms));
      AcceptablePointwise(Normalized(ms), ms);
    }
  }

  /** Normalising twice changes nothing, and the normal form is accepted when the document is. */
  lemma NormalFormIdempotent(ms: seq<Mapping>)
    ensures NormalForm(NormalForm(ms)) == NormalForm(ms)
    ensures Acceptable(ms) <==> Acceptable(NormalForm(ms))
  {
    hide Acceptable, SortBy, NormalMapping, MappingLeq;
    NormalFormAcceptable(ms);
    var nf := NormalForm(ms);
    forall i | 0 <= i < |nf| ensures NormalMapping(nf[i]) == nf[i] {
      assert nf[i] in Normalized(ms);
      var k :| 0 <= k < |ms| && Normalized(ms)[k] == nf[i];
      NormalSame(ms[k], nf[i]);
    }
    assert Normalized(nf) == nf;
    MappingOrder();
    SortBySorted(MappingLeq, Normalized(ms));
    SortByFixpoint(MappingLeq, nf);
  }

  /** Two documents whose images under a function are permutations of each other can be lined up. */
  lemma {:induction false} LineUp<T, U>(f: T -> U, a: seq<T>, b: seq<T>) returns (c: seq<T>)
    requires multiset(Mapped(f, a)) == multiset(Mapped(f, b))
    ensures multiset(c) == multiset(a) && Mapped(f, c) == Mapped(f, b)
    decreases |b|
  {
    hide Mapped, Without;
    assert |multiset(Mapped(f, a))| == |multiset(Mapped(f, b))|;
    c := [];
    if b != [] {
      assert Mapped(f, b)[0] in multiset(Mapped(f, a));
      var j :| 0 <= j < |a| && Mapped(f, a)[j] == f(b[0]);
      MappedWithout(f, a, j);
      MappedWithout(f, b, 0);
      var d := LineUp(f, Without(a, j), Without(b, 0));
      c := [a[j]] + d;
      ConsMapped(f, a[j], d, b);
    }
  }

  lemma ConsMapped<T, U>(f: T -> U, x: T, d: seq<T>, b: seq<T>)
    requires b != [] && f(x) == f(b[0]) && Mapped(f, d) == Mapped(f, Without(b, 0))
    ensures Mapped(f, [x] + d) == Mapped(f, b)
  {
    var c := [x] + d;
    assert |c| == |b|;
    forall i | 0 <= i < |b| ensures f(c[i]) == f(b[i]) {
      if i > 0 {
        assert Mapped(f, d)[i - 1] == f(c[i]);
        assert Mapped(f, Without(b, 0))[i - 1] == f(b[i]);
      }
    }
  }

  /** The normal form is exactly what a document says up to order: two documents share it just
      when one is the other with mappings and references reordered, and then both are accepted
      or neither is. */
  lemma NormalFormDecidesOrder(a: seq<Mapping>, b: seq<Mapping>)
    ensures NormalForm(a) == NormalForm(b) <==> SameUpToOrder(a, b)
    ensures SameUpToOrder(a, b) ==> (Acceptable(a) <==> Acceptable(b))
  {
    hide Acceptable, SortBy, NormalMapping, MappingLeq, SameMapping;
    MappingOrder();
    if NormalForm(a) == NormalForm(b) {
      assert multiset(Normalized(a)) == multiset(Normalized(b));
      var c := LineUp(NormalMapping, a, b);
      forall i | 0 <= i < |b| ensures SameMapping(c[i], b[i]) {
        assert Normalized(c)[i] == Normalized(b)[i];
        NormalSame(c[i], b[i]);
      }
      assert Pointwise(c, b);
    }
    if SameUpToOrder(a, b) {
      var c :| multiset(a) == multiset(c) && Pointwise(c, b);
      MappedMultiset(NormalMapping, a, c);
      SortByCanonical(MappingLeq, Normalized(a), Normalized(c));
      forall i | 0 <= i < |b| ensures NormalMapping(c[i]) == NormalMapping(b[i]) {
        NormalSame(c[i], b[i]);
      }
      assert Normalized(c) == Normalized(b);
      NormalFormAcceptable(a);
      NormalFormAcceptable(b);
    }
  }

  // ----- what is accepted, in the terms of identities -----

  /** A reference is canonical exactly if it is the text of a valid one. */
  lemma CanonicalMeans(r: Ref)
    ensures Canonical(r) <==>
      exists reference :: Identity.ValidReference(reference) && r.text == Identity.RenderReference(reference)
  {
    hide Identity.ParseReference, Identity.ValidReference, Identity.RenderReference;
    if Identity.ParseReference(r.text).Ok? {
      Identity.ReferenceRoundTrip(Identity.ParseReference(r.text).value, r.text);
    }
    if reference :| Identity.ValidReference(reference) && r.text == Identity.RenderReference(reference) {
      Identity.ReferenceRoundTrip(reference, r.text);
    }
  }

  /** A canonical reference is a path exactly if it has segments. */
  lemma PathMeans(reference: Identity.Reference)
    requires Identity.ValidReference(reference)
    ensures IsPath(Ref(Identity.RenderReference(reference))) <==> reference.segments != []
  {
    Identity.RenderHasNoHash(reference.declaration);
    Identity.RenderedPathHasHash(reference);
  }

  /** The text of a declaration, or of a path in one. */
  ghost predicate Names(r: Ref, path: bool) {
    exists reference :: Identity.ValidReference(reference) && r.text == Identity.RenderReference(reference) &&
      (path <==> reference.segments != [])
  }

  lemma NamesMeans(r: Ref, path: bool)
    ensures Names(r, path) <==> Canonical(r) && (path <==> IsPath(r))
  {
    hide Identity.ValidReference, Identity.RenderReference, Canonical, IsPath;
    CanonicalMeans(r);
    forall reference | Identity.ValidReference(reference) && r.text == Identity.RenderReference(reference)
      ensures IsPath(r) <==> reference.segments != []
    {
      PathMeans(reference);
      assert r == Ref(Identity.RenderReference(reference));
    }
  }

  /** One to one for renames, moves and replacements of declarations and for moves of fields; one to many for
      splits and many to one for merges of declarations. */
  lemma WellFormedMeans(m: Mapping)
    ensures WellFormed(m) <==>
      && NoDuplicates(m.sources) && NoDuplicates(m.targets)
      && (forall r :: r in m.sources || r in m.targets ==> Names(r, m.kind == "field_move"))
      && (|| (m.kind in {"rename", "move", "replacement", "field_move"} && |m.sources| == 1 && |m.targets| == 1)
          || (m.kind == "split" && |m.sources| == 1 && |m.targets| >= 2)
          || (m.kind == "merge" && |m.sources| >= 2 && |m.targets| == 1))
  {
    hide Names, Canonical, IsPath, NoDuplicates;
    forall r ensures Names(r, m.kind == "field_move") <==> Canonical(r) && (m.kind == "field_move" <==> IsPath(r)) {
      NamesMeans(r, m.kind == "field_move");
    }
    assert forall r :: r in m.sources + m.targets <==> r in m.sources || r in m.targets;
    assert m.sources != [] ==> m.sources[0] in m.sources;
    KindsDiffer();
  }

  lemma KindsDiffer()
    ensures "split" != "merge" && "rename" != "split"
  {
    assert "split"[0] == 's' && "merge"[0] == 'm';
  }

  /** Mappings are listed by kind, then by sources and then by targets, each compared from the front. */
  lemma MappingsAreOrdered(a: Mapping, b: Mapping)
    ensures a.kind != b.kind ==> (MappingLeq(a, b) <==> StringLeq(a.kind, b.kind))
    ensures a.kind == b.kind && a.sources != b.sources ==>
      (MappingLeq(a, b) <==> a.sources <= b.sources || exists i: nat :: FirstLess(RefLeq, a.sources, b.sources, i))
    ensures a.kind == b.kind && a.sources == b.sources ==>
      (MappingLeq(a, b) <==> a.targets <= b.targets || exists i: nat :: FirstLess(RefLeq, a.targets, b.targets, i))
  {
    LexMeans(RefLeq, a.sources, b.sources);
    LexMeans(RefLeq, a.targets, b.targets);
  }

  /** References are compared by their texts. */
  lemma ReferencesAreOrdered(a: Ref, b: Ref)
    ensures RefLeq(a, b) <==> a.text <= b.text || exists i: nat :: FirstLess(CharLeq, a.text, b.text, i)
  {
    LexMeans(CharLeq, a.text, b.text);
  }
}
