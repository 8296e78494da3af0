/** Direct and ultimate lineage of a migration document (cli/src/modelable/migration.py). */
module MigrationLineage {
  import opened Text
  import opened Ordering
  import opened Graphs
  import opened Migration
  import Identity

  datatype Direct = Direct(kind: string, source: Ref, target: Ref)

  datatype LineageEdge = LineageEdge(direct: Direct, immediate: Ref, ultimate: Ref, ultimateSources: seq<Ref>)

  function EdgesFrom(kind: string, source: Ref, targets: seq<Ref>): (r: seq<Direct>)
    ensures |r| == |targets| && forall i :: 0 <= i < |r| ==> r[i] == Direct(kind, source, targets[i])
  {
    seq(|targets|, i requires 0 <= i < |targets| => Direct(kind, source, targets[i]))
  }

  function EdgesOfSources(kind: string, sources: seq<Ref>, targets: seq<Ref>): seq<Direct> {
    if sources == [] then []
    else EdgesFrom(kind, sources[0], targets) + EdgesOfSources(kind, sources[1..], targets)
  }

  /** The comprehension over mappings, their sources and their targets. */
  function DirectEdges(ms: seq<Mapping>): seq<Direct> {
    if ms == [] then []
    else EdgesOfSources(ms[0].kind, ms[0].sources, ms[0].targets) + DirectEdges(ms[1..])
  }

  lemma {:induction false} EdgesOfSourcesMembers(kind: string, sources: seq<Ref>, targets: seq<Ref>, d: Direct)
    ensures d in EdgesOfSources(kind, sources, targets) <==>
      d.kind == kind && d.source in sources && d.target in targets
  {
    if sources != [] {
      EdgesOfSourcesMembers(kind, sources[1..], targets, d);
      var first := EdgesFrom(kind, sources[0], targets);
      if d.kind == kind && d.source == sources[0] && d.target in targets {
        var i :| 0 <= i < |targets| && targets[i] == d.target;
        assert first[i] == d;
      }
      assert d.source in sources <==> d.source == sources[0] || d.source in sources[1..];
    }
  }

  lemma {:induction false} DirectEdgesMembers(ms: seq<Mapping>, d: Direct)
    ensures d in DirectEdges(ms) <==>
      exists i :: 0 <= i < |ms| && d.kind == ms[i].kind && d.source in ms[i].sources && d.target in ms[i].targets
  {
    if ms != [] {
      DirectEdgesMembers(ms[1..], d);
      EdgesOfSourcesMembers(ms[0].kind, ms[0].sources, ms[0].targets, d);
      if d in DirectEdges(ms[1..]) {
        var i :| 0 <= i < |ms[1..]| && d.kind == ms[1..][i].kind && d.source in ms[1..][i].sources &&
          d.target in ms[1..][i].targets;
        assert ms[i + 1] == ms[1..][i];
      }
      if i :| 0 <= i < |ms| && d.kind == ms[i].kind && d.source in ms[i].sources && d.target in ms[i].targets {
        assert i > 0 ==> ms[1..][i - 1] == ms[i];
      }
    }
  }

  lemma DirectEdgeLeads(ms: seq<Mapping>, d: Direct)
    requires d in DirectEdges(ms)
    ensures Edge(LineageGraph(ms), d.source, d.target)
  {
    DirectEdgesMembers(ms, d);
    LineageEdges(ms, d.source, d.target);
  }

  lemma LeadsHasDirectEdge(ms: seq<Mapping>, a: Ref, b: Ref)
    requires Leads(ms, a, b)
    ensures Connects(DirectEdges(ms), a, b)
  {
    var i :| 0 <= i < |ms| && a in ms[i].sources && b in ms[i].targets;
    DirectEdgesMembers(ms, Direct(ms[i].kind, a, b));
  }

  ghost predicate Connects(direct: seq<Direct>, s: Ref, t: Ref) {
    exists d :: d in direct && d.source == s && d.target == t
  }

  lemma OneMoreConnects(direct: seq<Direct>, i: nat, s: Ref, t: Ref)
    requires i < |direct|
    ensures Connects(direct[..i + 1], s, t) <==>
      Connects(direct[..i], s, t) || (s == direct[i].source && t == direct[i].target)
  {
    TakeOneMore(direct, i);
    if Connects(direct[..i], s, t) {
      var d :| d in direct[..i] && d.source == s && d.target == t;
      assert d in direct[..i + 1];
    }
    if s == direct[i].source && t == direct[i].target { assert direct[i] in direct[..i + 1]; }
  }

  lemma NothingConnects(direct: seq<Direct>)
    ensures forall s, t :: !Connects(direct[..0], s, t)
  {
  }

  /** Every target with the sources of the edges into it. */
  method BuildParents(direct: seq<Direct>) returns (parents: Graph<Ref>)
    ensures forall t, s :: Edge(parents, t, s) <==> Connects(direct, s, t)
  {
    hide Connects;
    parents := map[];
    NothingConnects(direct);
    var i := 0;
    while i < |direct|
      invariant 0 <= i <= |direct|
      invariant forall t, s :: Edge(parents, t, s) <==> Connects(direct[..i], s, t)
    {
      var edge := direct[i];
      var next := parents[edge.target := Successors(parents, edge.target) + [edge.source]];
      forall t, s ensures Edge(next, t, s) <==> Connects(direct[..i + 1], s, t) {
        OneMoreConnects(direct, i, s, t);
        assert Edge(next, t, s) <==> Edge(parents, t, s) || (t == edge.target && s == edge.source);
      }
      parents := next;
      i := i + 1;
    }
    TakeAll(direct);
  }

  /** The worklist between two steps. */
  ghost predicate Climbing(g: Graph<Ref>, node: Ref, result: seq<Ref>, pending: seq<Ref>) {
    && NoDuplicates(result)
    && (forall x :: x in result || x in pending ==> StrictlyReaches(g, node, x))
    && (forall x :: Edge(g, node, x) ==> x in result || x in pending)
    && (forall x, y :: x in result && Edge(g, x, y) ==> y in result || y in pending)
  }

  lemma ClimbStart(g: Graph<Ref>, node: Ref)
    ensures Climbing(g, node, [], Successors(g, node))
  {
    forall x | x in Successors(g, node) ensures StrictlyReaches(g, node, x) {
      StrictlyReachesNext(g, node, node, x);
    }
  }

  lemma ClimbSkip(g: Graph<Ref>, node: Ref, result: seq<Ref>, pending: seq<Ref>)
    requires pending != [] && Climbing(g, node, result, pending) && pending[|pending| - 1] in result
    ensures Climbing(g, node, result, pending[..|pending| - 1])
  {
    SplitLast(pending);
  }

  lemma ClimbStep(g: Graph<Ref>, node: Ref, result: seq<Ref>, pending: seq<Ref>)
    requires pending != [] && Climbing(g, node, result, pending) && pending[|pending| - 1] !in result
    ensures var parent := pending[|pending| - 1];
      Climbing(g, node, result + [parent], pending[..|pending| - 1] + Successors(g, parent))
  {
    hide StrictlyReaches;
    SplitLast(pending);
    var parent := pending[|pending| - 1];
    forall x | x in Successors(g, parent) ensures StrictlyReaches(g, node, x) {
      StrictlyReachesNext(g, node, parent, x);
    }
  }

  lemma ClimbEnd(g: Graph<Ref>, node: Ref, result: seq<Ref>)
    requires Climbing(g, node, result, [])
    ensures NoDuplicates(result) && forall x :: x in result <==> StrictlyReaches(g, node, x)
  {
    var s := set x | x in result;
    forall x | StrictlyReaches(g, node, x) ensures x in result {
      var c :| Edge(g, node, c) && Reaches(g, c, x);
      ReachesInClosedSet(g, s, c, x);
    }
  }

  lemma StrictlyReachesInside(g: Graph<Ref>, node: Ref, x: Ref)
    requires StrictlyReaches(g, node, x)
    ensures x in NodeSet(g)
  {
    var b := ReachesLastStep(g, node, x);
  }

  lemma LessToFind(g: Graph<Ref>, node: Ref, result: seq<Ref>, pending: seq<Ref>, parent: Ref)
    requires Climbing(g, node, result, pending) && parent in pending && parent !in result
    ensures |NodeSet(g) - (set x | x in result + [parent])| < |NodeSet(g) - (set x | x in result)|
  {
    hide NodeSet, StrictlyReaches;
    StrictlyReachesInside(g, node, parent);
    var before, after := NodeSet(g) - (set x | x in result), NodeSet(g) - (set x | x in result + [parent]);
    assert parent in before && parent !in after;
    SmallerSet(after, before);
  }

  /** `_ancestors`: everything above the node, and only that. */
  method Ancestors(node: Ref, parents: Graph<Ref>) returns (result: seq<Ref>)
    ensures NoDuplicates(result)
    ensures forall x :: x in result <==> StrictlyReaches(parents, node, x)
  {
    hide Climbing, StrictlyReaches, NoDuplicates, NodeSet;
    result := [];
    var pending := Successors(parents, node);
    ClimbStart(parents, node);
    while pending != []
      invariant Climbing(parents, node, result, pending)
      decreases |NodeSet(parents) - (set x | x in result)|, |pending|
    {
      var parent := pending[|pending| - 1];
      if parent in result {
        ClimbSkip(parents, node, result, pending);
        pending := pending[..|pending| - 1];
      } else {
        ClimbStep(parents, node, result, pending);
        LessToFind(parents, node, result, pending, parent);
        result := result + [parent];
        pending := pending[..|pending| - 1] + Successors(parents, parent);
      }
    }
    ClimbEnd(parents, node, result);
  }

  /** `x` is a mapping's source from which `source` descends through the whole document. */
  ghost predicate Ancestor(ms: seq<Mapping>, x: Ref, source: Ref) {
    StrictlyReaches(LineageGraph(ms), x, source)
  }

  /** The lineage an edge carries: the sorted ancestors of its source, or the source alone when it
      has none; the least of them is called ultimate. */
  ghost predicate Explained(ms: seq<Mapping>, e: LineageEdge) {
    && e.immediate == e.direct.source
    && e.ultimateSources != [] && e.ultimate == e.ultimateSources[0]
    && Sorted(RefLeq, e.ultimateSources) && NoDuplicates(e.ultimateSources)
    && (forall x :: x in e.ultimateSources <==>
          (Ancestor(ms, x, e.direct.source) || (x == e.direct.source && Unrooted(ms, x))))
  }

  /** Nothing is above the reference. */
  ghost predicate Unrooted(ms: seq<Mapping>, x: Ref) {
    forall y :: !Ancestor(ms, y, x)
  }

  predicate EdgeLeq(a: LineageEdge, b: LineageEdge) {
    if a.direct.source != b.direct.source then RefLeq(a.direct.source, b.direct.source)
    else if a.direct.target != b.direct.target then RefLeq(a.direct.target, b.direct.target)
    else StringLeq(a.direct.kind, b.direct.kind)
  }

  function DirectOf(e: LineageEdge): Direct { e.direct }

  ghost predicate IsParents(ms: seq<Mapping>, parents: Graph<Ref>) {
    forall t, s :: Edge(parents, t, s) <==> Edge(LineageGraph(ms), s, t)
  }

  lemma ParentsReverse(ms: seq<Mapping>, parents: Graph<Ref>)
    requires forall t, s :: Edge(parents, t, s) <==> Connects(DirectEdges(ms), s, t)
    ensures IsParents(ms, parents)
  {
    hide LineageGraph, DirectEdges;
    forall t, s ensures Edge(parents, t, s) <==> Edge(LineageGraph(ms), s, t) {
      if Edge(parents, t, s) {
        var d :| d in DirectEdges(ms) && d.source == s && d.target == t;
        DirectEdgeLeads(ms, d);
      }
      if Edge(LineageGraph(ms), s, t) {
        LineageEdges(ms, s, t);
        LeadsHasDirectEdge(ms, s, t);
      }
    }
  }

  lemma AncestorsAreAbove(ms: seq<Mapping>, parents: Graph<Ref>, node: Ref, x: Ref)
    requires IsParents(ms, parents)
    ensures StrictlyReaches(parents, node, x) <==> Ancestor(ms, x, node)
  {
    hide StrictlyReaches, LineageGraph, Edge;
    if StrictlyReaches(parents, node, x) { StrictlyBackwards(parents, LineageGraph(ms), node, x); }
    if Ancestor(ms, x, node) { StrictlyBackwards(LineageGraph(ms), parents, x, node); }
  }

  /** One edge with its lineage. */
  method Explain(ghost ms: seq<Mapping>, edge: Direct, parents: Graph<Ref>) returns (e: LineageEdge)
    requires IsParents(ms, parents)
    ensures e.direct == edge && Explained(ms, e)
  {
    hide IsParents, Ancestor, StrictlyReaches, SortBy, RefLeq;
    var found := Ancestors(edge.source, parents);
    forall x ensures x in found <==> Ancestor(ms, x, edge.source) {
      AncestorsAreAbove(ms, parents, edge.source, x);
    }
    var ancestors := SortBy(RefLeq, found);
    RefOrder();
    SortBySorted(RefLeq, found);
    SortByNoDuplicates(RefLeq, found);
    var sources := if ancestors != [] then ancestors else [edge.source];
    assert ancestors != [] ==> ancestors[0] in found;
    e := LineageEdge(edge, edge.source, sources[0], sources);
  }

  /** Direct and ultimate lineage of a document, refused exactly when the document is. */
  method MigrationEdges(ms: seq<Mapping>) returns (r: Result<seq<LineageEdge>, MigrationError>)
    ensures r.Ok? <==> Acceptable(ms)
    ensures r.Ok? ==> Lineage(ms, r.value)
  {
    hide *;
    var parsed := ParseMigrationDocument(ms);
    if parsed.Err? { return Err(parsed.error); }
    var normalized := parsed.value;
    ParsedIsNormal(ms, parsed);
    var direct := DirectEdges(normalized);
    var parents := BuildParents(direct);
    ParentsReverse(normalized, parents);
    var edges: seq<LineageEdge> := [];
    var i := 0;
    NoEdgesYet(normalized, direct);
    while i < |direct|
      invariant 0 <= i <= |direct|
      invariant ExplainedSoFar(normalized, direct, i, edges)
    {
      var edge := Explain(normalized, direct[i], parents);
      OneMoreExplained(normalized, direct, i, edges, edge);
      edges := edges + [edge];
      i := i + 1;
    }
    AllExplained(ms, direct, edges);
    r := Ok(SortBy(EdgeLeq, edges));
  }

  ghost predicate ExplainedSoFar(ms: seq<Mapping>, direct: seq<Direct>, i: nat, edges: seq<LineageEdge>) {
    && i <= |direct| && |edges| == i
    && forall k :: 0 <= k < i ==> edges[k].direct == direct[k] && Explained(ms, edges[k])
  }

  lemma NoEdgesYet(ms: seq<Mapping>, direct: seq<Direct>)
    ensures ExplainedSoFar(ms, direct, 0, [])
  {
  }

  lemma OneMoreExplained(ms: seq<Mapping>, direct: seq<Direct>, i: nat, edges: seq<LineageEdge>, edge: LineageEdge)
    requires ExplainedSoFar(ms, direct, i, edges) && i < |direct|
    requires edge.direct == direct[i] && Explained(ms, edge)
    ensures ExplainedSoFar(ms, direct, i + 1, edges + [edge])
  {
    hide Explained;
  }

  lemma ParsedIsNormal(ms: seq<Mapping>, r: Result<seq<Mapping>, MigrationError>)
    requires Verdict(ms, r) && r.Ok?
    ensures r.value == NormalForm(ms)
  {
  }

  /** The answer: one explained edge for every direct edge of the normal form, in key order. */
  ghost predicate Lineage(ms: seq<Mapping>, edges: seq<LineageEdge>) {
    && Sorted(EdgeLeq, edges)
    && multiset(Mapped(DirectOf, edges)) == multiset(DirectEdges(NormalForm(ms)))
    && forall e :: e in edges ==> Explained(ms, e)
  }

  lemma NormalFormLeads(ms: seq<Mapping>, x: Ref, y: Ref)
    ensures Leads(ms, x, y) <==> Leads(NormalForm(ms), x, y)
  {
    hide SortBy, NormalMapping;
    var ns := Normalized(ms);
    LeadsPermuted(ns, NormalForm(ms), x, y);
    LeadsPermuted(NormalForm(ms), ns, x, y);
    NormalizedLeads(ms, x, y);
  }

  /** Lineage does not depend on how the document is listed. */
  lemma SameAncestors(a: seq<Mapping>, b: seq<Mapping>, x: Ref, source: Ref)
    requires forall s, t :: Leads(a, s, t) <==> Leads(b, s, t)
    ensures Ancestor(a, x, source) <==> Ancestor(b, x, source)
  {
    hide StrictlyReaches, LineageGraph, Edge;
    SameLineage(a, b);
    var g, h := LineageGraph(a), LineageGraph(b);
    if Ancestor(a, x, source) { SameEdgesSameReach(g, h, x, source); }
    if Ancestor(b, x, source) { SameEdgesSameReach(h, g, x, source); }
  }

  lemma ExplainedSame(a: seq<Mapping>, b: seq<Mapping>, e: LineageEdge)
    requires forall s, t :: Leads(a, s, t) <==> Leads(b, s, t)
    requires Explained(a, e)
    ensures Explained(b, e)
  {
    hide Ancestor, Leads, NoDuplicates, Sorted;
    forall x, y ensures Ancestor(a, x, y) <==> Ancestor(b, x, y) { SameAncestors(a, b, x, y); }
  }

  lemma AllExplained(ms: seq<Mapping>, direct: seq<Direct>, edges: seq<LineageEdge>)
    requires direct == DirectEdges(NormalForm(ms))
    requires ExplainedSoFar(NormalForm(ms), direct, |direct|, edges)
    ensures Lineage(ms, SortBy(EdgeLeq, edges))
  {
    hide Explained, Leads, NormalForm, DirectEdges, EdgeLeq, SortBy;
    var sorted := SortBy(EdgeLeq, edges);
    EdgeOrder();
    SortBySorted(EdgeLeq, edges);
    MappedMultiset(DirectOf, sorted, edges);
    assert Mapped(DirectOf, edges) == direct;
    forall x, y ensures Leads(ms, x, y) <==> Leads(NormalForm(ms), x, y) { NormalFormLeads(ms, x, y); }
    forall e | e in sorted ensures Explained(ms, e) {
      var k :| 0 <= k < |edges| && edges[k] == e;
      ExplainedSame(NormalForm(ms), ms, e);
    }
  }

  /** The key order, which only tells edges apart by what they connect and how. */
  lemma EdgeOrder()
    ensures Preorder(EdgeLeq)
    ensures forall a, b :: EdgeLeq(a, b) && EdgeLeq(b, a) ==> a.direct == b.direct
  {
    hide RefLeq, StringLeq;
    RefOrder();
    StringOrder();
  }

  lemma ExplainedUnique(ms: seq<Mapping>, e: LineageEdge, f: LineageEdge)
    requires Explained(ms, e) && Explained(ms, f) && e.direct == f.direct
    ensures e == f
  {
    hide Ancestor, Unrooted, RefLeq;
    RefOrder();
    assert forall x :: x in e.ultimateSources <==> x in f.ultimateSources;
    assert (set x | x in e.ultimateSources) == (set x | x in f.ultimateSources);
    NoDuplicatesMultiset(e.ultimateSources);
    NoDuplicatesMultiset(f.ultimateSources);
    SortedUnique(RefLeq, e.ultimateSources, f.ultimateSources);
  }

  /** The listing is determined by the document up to order. */
  lemma LineageIgnoresOrder(a: seq<Mapping>, b: seq<Mapping>, x: seq<LineageEdge>, y: seq<LineageEdge>)
    requires SameUpToOrder(a, b) && Lineage(a, x) && Lineage(b, y)
    ensures x == y
  {
    hide Explained, NormalForm, DirectEdges, SameUpToOrder, Leads, EdgeLeq, Mapped;
    NormalFormDecidesOrder(a, b);
    var c := LineUp(DirectOf, x, y);
    forall s, t ensures Leads(a, s, t) <==> Leads(b, s, t) {
      NormalFormLeads(a, s, t);
      NormalFormLeads(b, s, t);
    }
    assert |c| == |y| by { assert |Mapped(DirectOf, c)| == |Mapped(DirectOf, y)|; }
    forall i | 0 <= i < |y| ensures c[i] == y[i] {
      assert Mapped(DirectOf, c)[i] == Mapped(DirectOf, y)[i];
      assert c[i] in multiset(x);
      ExplainedSame(a, b, c[i]);
      ExplainedUnique(b, c[i], y[i]);
    }
    assert c == y;
    EdgeOrder();
    forall e, f | e in x && f in x && EdgeLeq(e, f) && EdgeLeq(f, e) ensures e == f { ExplainedUnique(a, e, f); }
    SortedUnique(EdgeLeq, x, y);
  }

  /** No edge lists its own target among its ultimate sources. */
  lemma NeverItsOwnAncestor(ms: seq<Mapping>, e: LineageEdge)
    requires Acceptable(ms) && Explained(ms, e) && Leads(ms, e.direct.source, e.direct.target)
    ensures e.direct.target !in e.ultimateSources
  {
    var g, source, target := LineageGraph(ms), e.direct.source, e.direct.target;
    LineageEdges(ms, source, target);
    if target in e.ultimateSources {
      if Ancestor(ms, target, source) {
        StrictlyReachesNext(g, target, source, target);
        StrictlyReachesSelf(g, target);
      } else {
        EdgeSelfCycle(g, source);
      }
    }
  }

  lemma EdgeSelfCycle(g: Graph<Ref>, a: Ref)
    requires Edge(g, a, a)
    ensures OnCycle(g, a)
  {
    ReachesSelf(g, a);
    EdgeBackClosesCycle(g, a, a);
  }

  /** No mapping produces the reference. */
  ghost predicate Untargeted(ms: seq<Mapping>, x: Ref) {
    forall i :: 0 <= i < |ms| ==> x !in ms[i].targets
  }

  lemma RootsAreUntargeted(ms: seq<Mapping>, x: Ref)
    requires AllWellFormed(ms)
    ensures Unrooted(ms, x) <==> Untargeted(ms, x)
  {
    var g := LineageGraph(ms);
    if !Unrooted(ms, x) {
      var y :| Ancestor(ms, y, x);
      var b := ReachesLastStep(g, y, x);
      LineageEdges(ms, b, x);
    }
    if i :| 0 <= i < |ms| && x in ms[i].targets {
      assert WellFormed(ms[i]);
      var s := ms[i].sources[0];
      assert Leads(ms, s, x);
      LineageEdges(ms, s, x);
      ReachesSelf(g, x);
      assert Ancestor(ms, s, x);
    }
  }

  /** Among the ancestors of `source` the first by text is one that no mapping produces. */
  ghost predicate RootComesFirst(ms: seq<Mapping>, source: Ref) {
    exists r :: Ancestor(ms, r, source) && Untargeted(ms, r) && forall a :: Ancestor(ms, a, source) ==> RefLeq(r, a)
  }

  /** The source an edge calls ultimate is the least ancestor by text. For an edge from `source` it
      is a root of the document exactly when `source` itself is one, or a root comes first among its
      ancestors. */
  lemma UltimateIsRootExactly(ms: seq<Mapping>, e: LineageEdge)
    requires AllWellFormed(ms) && Explained(ms, e)
    ensures Unrooted(ms, e.ultimate) <==> Untargeted(ms, e.direct.source) || RootComesFirst(ms, e.direct.source)
  {
    hide RefLeq, Ancestor, AllWellFormed, Untargeted, NoDuplicates;
    var u, source := e.ultimate, e.direct.source;
    RefOrder();
    RootsAreUntargeted(ms, u);
    RootsAreUntargeted(ms, source);
    assert u in e.ultimateSources;
    if !Unrooted(ms, source) {
      forall a | Ancestor(ms, a, source) ensures RefLeq(u, a) {
        var k :| 0 <= k < |e.ultimateSources| && e.ultimateSources[k] == a;
        assert k > 0 ==> RefLeq(e.ultimateSources[0], e.ultimateSources[k]);
      }
      if r :| Ancestor(ms, r, source) && Untargeted(ms, r) && forall a :: Ancestor(ms, a, source) ==> RefLeq(r, a) {
        assert RefLeq(r, u) && RefLeq(u, r);
      }
    }
  }

  lemma MappedMembers(edges: seq<LineageEdge>, direct: seq<Direct>, d: Direct)
    requires multiset(Mapped(DirectOf, edges)) == multiset(direct)
    ensures d in direct <==> exists e :: e in edges && e.direct == d
  {
    var m := Mapped(DirectOf, edges);
    assert d in multiset(direct) <==> d in multiset(m);
    assert d in m <==> d in direct;
    if d in m {
      var k :| 0 <= k < |m| && m[k] == d;
      assert edges[k].direct == d;
    }
    if e :| e in edges && e.direct == d {
      var k :| 0 <= k < |edges| && edges[k] == e;
      assert m[k] == d;
    }
  }

  /** Every listed edge is a step some mapping makes and every such step is listed; no listed edge
      has its target among its ultimate sources. */
  lemma LineageCovers(ms: seq<Mapping>, edges: seq<LineageEdge>, s: Ref, t: Ref)
    requires Acceptable(ms) && Lineage(ms, edges)
    ensures Leads(ms, s, t) <==> exists e :: e in edges && e.direct.source == s && e.direct.target == t
    ensures forall e :: e in edges && e.direct.source == s && e.direct.target == t ==> t !in e.ultimateSources
  {
    hide Leads, NormalForm, DirectEdges, Explained, Acceptable;
    NormalFormLeads(ms, s, t);
    var direct := DirectEdges(NormalForm(ms));
    if Leads(ms, s, t) {
      LeadsHasDirectEdge(NormalForm(ms), s, t);
      var d :| d in direct && d.source == s && d.target == t;
      MappedMembers(edges, direct, d);
    }
    forall e | e in edges && e.direct.source == s && e.direct.target == t
      ensures Leads(ms, s, t) && t !in e.ultimateSources
    {
      MappedMembers(edges, direct, e.direct);
      DirectEdgeLeads(NormalForm(ms), e.direct);
      LineageEdges(NormalForm(ms), s, t);
      NeverItsOwnAncestor(ms, e);
    }
  }

  // ----- the ultimate source need not be a root -----

  function Named(name: string): Ref {
    Ref(Identity.Render(Identity.Declaration("d", name, 0)))
  }

  function Rename(a: Ref, b: Ref): Mapping { Mapping("rename", [a], [b]) }

  /** `z` became `b`, `b` became `m`, `m` became `t`. */
  function Renames(): seq<Mapping> {
    [Rename(Named("z"), Named("b")), Rename(Named("b"), Named("m")), Rename(Named("m"), Named("t"))]
  }

  lemma NamedText(c: char)
    ensures Named([c]).text == ['d', '.', c, '@', '0']
  {
    assert Decimal(0) == "0";
  }

  lemma NamedLeq(b: char, z: char)
    requires b < z
    ensures RefLeq(Named([b]), Named([z])) && Named([b]) != Named([z])
  {
    hide Named;
    NamedText(b);
    NamedText(z);
    var s, t := Named([b]).text, Named([z]).text;
    assert s[2] == b && t[2] == z;
    assert s[1..] == ['.', b, '@', '0'] && t[1..] == ['.', z, '@', '0'];
    assert s[1..][1..] == [b, '@', '0'] && t[1..][1..] == [z, '@', '0'];
    assert StringLeq([b, '@', '0'], [z, '@', '0']);
    assert StringLeq(s[1..], t[1..]);
  }

  lemma NamedDiffer()
    ensures Named("b") != Named("m") && Named("b") != Named("t") && Named("b") != Named("z")
    ensures Named("m") != Named("t") && Named("m") != Named("z") && Named("t") != Named("z")
    ensures RefLeq(Named("b"), Named("z"))
  {
    hide Named, RefLeq;
    NamedLeq('b', 'm');
    NamedLeq('b', 't');
    NamedLeq('b', 'z');
    NamedLeq('m', 't');
    NamedLeq('m', 'z');
    NamedLeq('t', 'z');
  }

  lemma NamedWellFormed(a: string, b: string)
    requires Identity.IsIdentifier(a) && Identity.IsIdentifier(b)
    ensures WellFormed(Rename(Named(a), Named(b)))
  {
    hide Named, Canonical, IsPath, Identity.IsIdentifier;
    NamedCanonical(a);
    NamedCanonical(b);
    assert NoDuplicates([Named(a)]) && NoDuplicates([Named(b)]);
  }

  lemma NamedCanonical(name: string)
    requires Identity.IsIdentifier(name)
    ensures Canonical(Named(name)) && !IsPath(Named(name))
  {
    var d := Identity.Declaration("d", name, 0);
    Identity.ReferenceRoundTrip(Identity.SemanticPath(d, []), Named(name).text);
    Identity.RenderHasNoHash(d);
  }

  lemma RenamesLead(x: Ref, y: Ref)
    ensures Edge(LineageGraph(Renames()), x, y) <==>
      (x == Named("z") && y == Named("b")) || (x == Named("b") && y == Named("m")) ||
      (x == Named("m") && y == Named("t"))
  {
    hide Named;
    LineageEdges(Renames(), x, y);
    var ms := Renames();
    if x == Named("z") && y == Named("b") { assert x in ms[0].sources && y in ms[0].targets; }
    if x == Named("b") && y == Named("m") { assert x in ms[1].sources && y in ms[1].targets; }
    if x == Named("m") && y == Named("t") { assert x in ms[2].sources && y in ms[2].targets; }
  }

  lemma RenamesAcceptable()
    ensures Acceptable(Renames())
  {
    hide Named, LineageGraph, WellFormed;
    NamedDiffer();
    NamedWellFormed("z", "b");
    NamedWellFormed("b", "m");
    NamedWellFormed("m", "t");
    var g := LineageGraph(Renames());
    forall x, y ensures Edge(g, x, y) <==>
        (x == Named("z") && y == Named("b")) || (x == Named("b") && y == Named("m")) ||
        (x == Named("m") && y == Named("t")) { RenamesLead(x, y); }
    FourInOrder(g, Named("t"), Named("m"), Named("b"), Named("z"));
  }

  lemma FourInOrder(g: Graph<Ref>, t: Ref, m: Ref, b: Ref, z: Ref)
    requires forall x, y :: Edge(g, x, y) ==> (x == z && y == b) || (x == b && y == m) || (x == m && y == t)
    requires t != m && t != b && t != z && m != b && m != z && b != z
    ensures Acyclic(g)
  {
    hide Edge;
    var order := [t, m, b, z];
    assert FinishingOrder(g, order) by {
      assert order[..1] == [t] && order[..2] == [t, m] && order[..3] == [t, m, b];
    }
    forall p | ClosedWalk(g, p) ensures false {
      assert Edge(g, p[0], p[1]);
      ReachesSelf(g, p[0]);
      assert OnCycle(g, p[0]);
      FinishingOrderAcyclic(g, order, p[0]);
    }
  }

  lemma RenamesAncestors(x: Ref)
    ensures Ancestor(Renames(), x, Named("m")) <==> x == Named("b") || x == Named("z")
    ensures Ancestor(Renames(), x, Named("b")) <==> x == Named("z")
    ensures !Ancestor(Renames(), x, Named("z"))
  {
    hide Named, LineageGraph, Edge;
    var g, z, b, m := LineageGraph(Renames()), Named("z"), Named("b"), Named("m");
    NamedDiffer();
    forall u, v ensures Edge(g, u, v) <==>
        (u == z && v == b) || (u == b && v == m) || (u == m && v == Named("t")) { RenamesLead(u, v); }
    ReachesSelf(g, z);
    ReachesSelf(g, b);
    ReachesSelf(g, m);
    ReachesEdge(g, b, m);
    assert StrictlyReaches(g, z, b) && StrictlyReaches(g, b, m) && StrictlyReaches(g, z, m);
    if StrictlyReaches(g, x, m) && x != b {
      var c := ReachesLastStep(g, x, m);
      var d := ReachesFirstStep(g, x, b);
      var e := ReachesLastStep(g, x, b);
      OnlyItself(g, x, z);
    }
    if StrictlyReaches(g, x, b) {
      var c := ReachesLastStep(g, x, b);
      OnlyItself(g, x, z);
    }
    if StrictlyReaches(g, x, z) { var c := ReachesLastStep(g, x, z); }
  }

  /** Nothing but the node itself reaches a node no edge enters. */
  lemma OnlyItself(g: Graph<Ref>, x: Ref, z: Ref)
    requires Reaches(g, x, z) && forall u :: !Edge(g, u, z)
    ensures x == z
  {
    hide Edge;
    if x != z {
      var d := ReachesFirstStep(g, x, z);
      var c := ReachesLastStep(g, x, z);
    }
  }

  /** With the references named so, the edge from `m` to `t` calls `b` ultimate although `b` itself
      came from `z`. */
  lemma UltimateNeedNotBeRoot() returns (e: LineageEdge)
    ensures Acceptable(Renames()) && Leads(Renames(), e.direct.source, e.direct.target)
    ensures Explained(Renames(), e) && !Unrooted(Renames(), e.ultimate)
  {
    hide Named, Ancestor, RefLeq, Acceptable;
    NamedDiffer();
    RenamesAcceptable();
    forall x ensures Ancestor(Renames(), x, Named("m")) <==> x == Named("b") || x == Named("z") {
      RenamesAncestors(x);
    }
    RenamesAncestors(Named("z"));
    var sources := [Named("b"), Named("z")];
    e := LineageEdge(Direct("rename", Named("m"), Named("t")), Named("m"), Named("b"), sources);
    assert Renames()[2] == Rename(Named("m"), Named("t"));
    assert Named("m") in Renames()[2].sources && Named("t") in Renames()[2].targets;
  }

  /** The lineage is listed by the texts of source and target and then by kind, and the ultimate sources of an
      edge by their texts, the first of them its ultimate source. */
  lemma LineageIsListed(ms: seq<Mapping>, edges: seq<LineageEdge>, i: nat, j: nat)
    requires Lineage(ms, edges) && i < j < |edges|
    ensures var a, b := edges[i].direct, edges[j].direct;
      if a.source != b.source then StringLeq(a.source.text, b.source.text)
      else if a.target != b.target then StringLeq(a.target.text, b.target.text)
      else StringLeq(a.kind, b.kind)
    ensures var sources := edges[i].ultimateSources;
      sources != [] && edges[i].ultimate == sources[0] && edges[i].immediate == edges[i].direct.source &&
      forall k, l :: 0 <= k < l < |sources| ==> StringLeq(sources[k].text, sources[l].text)
  {
    hide StringLeq;
    assert EdgeLeq(edges[i], edges[j]);
    assert edges[i] in edges;
    assert Sorted(RefLeq, edges[i].ultimateSources);
  }
}
