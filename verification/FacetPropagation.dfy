/** How facets travel along projection lineage (cli/src/modelable/facets.py): the explicit facets
    and the dependency graph are given here; FacetWorkspace builds them from a workspace. */
module FacetPropagation {
  import opened Text
  import opened Ordering
  import opened Graphs
  import Identity

  datatype SubjectKind = DeclarationKind | FieldKind | ProjectionKind | ProjectionFieldKind

  datatype Subject = Subject(kind: SubjectKind, reference: Identity.Reference)

  datatype Propagation = Never | Inherit | Project

  datatype Source = Source(subject: Subject, location: Option<string>, lineage: Option<string>)

  datatype Facet = Facet(
    identity: string, value: string, subject: Subject, propagation: Propagation,
    source: Option<Source>, known: bool)

  type Explicit = map<Subject, seq<Facet>>

  function KindText(kind: SubjectKind): string {
    match kind
    case DeclarationKind => "declaration"
    case FieldKind => "field"
    case ProjectionKind => "projection"
    case ProjectionFieldKind => "projection_field"
  }

  function Canonical(s: Subject): string {
    KindText(s.kind) + ":" + Identity.RenderReference(s.reference)
  }

  function SortKey(f: Facet): seq<string> {
    [Canonical(f.subject), f.identity, if f.source.Some? then Canonical(f.source.value.subject) else ""]
  }

  predicate FacetLeq(a: Facet, b: Facet) { KeyLeq(SortKey(a), SortKey(b)) }

  function ExplicitAt(explicit: Explicit, s: Subject): seq<Facet> {
    if s in explicit then explicit[s] else []
  }

  predicate HasIdentity(fs: seq<Facet>, identity: string) {
    exists i :: 0 <= i < |fs| && fs[i].identity == identity
  }

  /** The provenance of a derived facet: the subject it came from, with the origin's location. */
  function DerivedSource(from: Subject, f: Facet): Source {
    match f.source
    case None => Source(from, None, None)
    case Some(o) => Source(from, o.location, o.lineage)
  }

  function Derive(s: Subject, from: Subject, f: Facet): Facet {
    f.(subject := s, source := Some(DerivedSource(from, f)))
  }

  /** The facets of `fs` with the given mode that are understood, re-attached to `s`. */
  function Carry(s: Subject, from: Subject, mode: Propagation, fs: seq<Facet>): seq<Facet> {
    if fs == [] then []
    else
      var rest := Carry(s, from, mode, fs[1..]);
      if fs[0].known && fs[0].propagation == mode then [Derive(s, from, fs[0])] + rest else rest
  }

  lemma {:induction false} CarryMembers(s: Subject, from: Subject, mode: Propagation, fs: seq<Facet>, f: Facet)
    ensures f in Carry(s, from, mode, fs) <==>
      exists e :: e in fs && e.known && e.propagation == mode && f == Derive(s, from, e)
  {
    if fs != [] {
      CarryMembers(s, from, mode, fs[1..], f);
      assert fs == [fs[0]] + fs[1..];
    }
  }

  function Ancestors(s: Subject): seq<Subject> {
    match s.kind
    case FieldKind =>
      [Subject(DeclarationKind, s.reference.(segments := []))] +
      seq(if |s.reference.segments| == 0 then 0 else |s.reference.segments| - 1,
          i requires 0 <= i < |s.reference.segments| =>
            Subject(FieldKind, s.reference.(segments := s.reference.segments[..i + 1])))
    case ProjectionFieldKind => [Subject(ProjectionKind, s.reference.(segments := []))]
    case _ => []
  }

  function Inherited(explicit: Explicit, s: Subject, ancestors: seq<Subject>): seq<Facet> {
    if ancestors == [] then []
    else
      Carry(s, ancestors[0], Inherit, ExplicitAt(explicit, ancestors[0])) + Inherited(explicit, s, ancestors[1..])
  }

  lemma {:induction false} InheritedMembers(explicit: Explicit, s: Subject, ancestors: seq<Subject>, f: Facet)
    ensures f in Inherited(explicit, s, ancestors) <==>
      exists a, e :: a in ancestors && e in ExplicitAt(explicit, a) &&
        e.known && e.propagation == Inherit && f == Derive(s, a, e)
  {
    if ancestors != [] {
      CarryMembers(s, ancestors[0], Inherit, ExplicitAt(explicit, ancestors[0]), f);
      InheritedMembers(explicit, s, ancestors[1..], f);
      assert ancestors == [ancestors[0]] + ancestors[1..];
    }
  }

  function Unshadowed(own: seq<Facet>, fs: seq<Facet>): seq<Facet> {
    if fs == [] then []
    else (if HasIdentity(own, fs[0].identity) then [] else [fs[0]]) + Unshadowed(own, fs[1..])
  }

  lemma {:induction false} UnshadowedMembers(own: seq<Facet>, fs: seq<Facet>, f: Facet)
    ensures f in Unshadowed(own, fs) <==> f in fs && !HasIdentity(own, f.identity)
  {
    if fs != [] {
      UnshadowedMembers(own, fs[1..], f);
      assert fs == [fs[0]] + fs[1..];
    }
  }

  /** What a subject ends up with, once its dependencies have handed over `projected`. */
  function Attach(explicit: Explicit, s: Subject, projected: seq<Facet>): seq<Facet> {
    var own := ExplicitAt(explicit, s);
    SortBy(FacetLeq, own + Unshadowed(own, Inherited(explicit, s, Ancestors(s))) + Unshadowed(own, projected))
  }

  ghost predicate IsInherited(explicit: Explicit, s: Subject, f: Facet) {
    && (exists a, e :: a in Ancestors(s) && e in ExplicitAt(explicit, a) &&
          e.known && e.propagation == Inherit && f == Derive(s, a, e))
    && !HasIdentity(ExplicitAt(explicit, s), f.identity)
  }

  lemma AttachMembers(explicit: Explicit, s: Subject, projected: seq<Facet>, f: Facet)
    ensures f in Attach(explicit, s, projected) <==>
      || f in ExplicitAt(explicit, s)
      || IsInherited(explicit, s, f)
      || (f in projected && !HasIdentity(ExplicitAt(explicit, s), f.identity))
  {
    var own := ExplicitAt(explicit, s);
    InheritedMembers(explicit, s, Ancestors(s), f);
    UnshadowedMembers(own, Inherited(explicit, s, Ancestors(s)), f);
    UnshadowedMembers(own, projected, f);
  }

  // ----- the reference semantics: plain recursion, nothing remembered -----

  /** Resolves `s` below the subjects in `stack`, re-computing every shared dependency. */
  ghost function Plain(g: Graph<Subject>, explicit: Explicit, s: Subject, stack: set<Subject>): Result<seq<Facet>, ()>
    decreases |g.Keys - stack|, 1, 0
  {
    if s in stack then Err(())
    else if Successors(g, s) == [] then Ok(Attach(explicit, s, []))
    else
      assert g.Keys - (stack + {s}) < g.Keys - stack by { assert s in g.Keys - stack; }
      SmallerSet(g.Keys - (stack + {s}), g.Keys - stack);
      match PlainProjected(g, explicit, s, Successors(g, s), stack + {s})
      case Err(e) => Err(e)
      case Ok(projected) => Ok(Attach(explicit, s, projected))
  }

  ghost function PlainProjected(
    g: Graph<Subject>, explicit: Explicit, s: Subject, from: seq<Subject>, stack: set<Subject>): Result<seq<Facet>, ()>
    decreases |g.Keys - stack|, 2, |from|
  {
    if from == [] then Ok([])
    else
      match Plain(g, explicit, from[0], stack)
      case Err(e) => Err(e)
      case Ok(fs) =>
        match PlainProjected(g, explicit, s, from[1..], stack)
        case Err(e) => Err(e)
        case Ok(rest) => Ok(Carry(s, from[0], Project, fs) + rest)
  }

  ghost predicate Meets(g: Graph<Subject>, s: Subject, stack: set<Subject>) {
    exists x :: x in stack && Reaches(g, s, x)
  }

  /** Plain resolution fails exactly when it would run into its own stack or into a cycle. */
  lemma {:induction false} PlainFails(g: Graph<Subject>, explicit: Explicit, s: Subject, stack: set<Subject>)
    ensures Plain(g, explicit, s, stack).Err? <==> Meets(g, s, stack) || ReachesCycle(g, s)
    decreases |g.Keys - stack|, 1, 0
  {
    if s in stack {
      ReachesSelf(g, s);
    } else if Successors(g, s) == [] {
      forall x | Reaches(g, s, x) ensures x == s {
        if x != s { var b := ReachesFirstStep(g, s, x); }
      }
      if ReachesCycle(g, s) { var b := ReachesCycleUnfold(g, s); }
    } else {
      assert s in g.Keys - stack;
      SmallerSet(g.Keys - (stack + {s}), g.Keys - stack);
      PlainProjectedFails(g, explicit, s, Successors(g, s), stack + {s});
      if Plain(g, explicit, s, stack).Err? {
        var c :| c in Successors(g, s) && (Meets(g, c, stack + {s}) || ReachesCycle(g, c));
        ReachesEdge(g, s, c);
        if ReachesCycle(g, c) {
          ReachesCycleStep(g, s, c);
        } else {
          var x :| x in stack + {s} && Reaches(g, c, x);
          if x == s {
            EdgeBackClosesCycle(g, s, c);
            ReachesSelf(g, s);
          } else {
            ReachesTransitive(g, s, c, x);
          }
        }
      } else {
        if Meets(g, s, stack) {
          var x :| x in stack && Reaches(g, s, x);
          var c := ReachesFirstStep(g, s, x);
          assert Meets(g, c, stack + {s});
        }
        if ReachesCycle(g, s) { var c := ReachesCycleUnfold(g, s); }
      }
    }
  }

  lemma {:induction false} PlainProjectedFails(
    g: Graph<Subject>, explicit: Explicit, s: Subject, from: seq<Subject>, stack: set<Subject>)
    ensures PlainProjected(g, explicit, s, from, stack).Err? <==>
      exists c :: c in from && (Meets(g, c, stack) || ReachesCycle(g, c))
    decreases |g.Keys - stack|, 2, |from|
  {
    if from != [] {
      PlainFails(g, explicit, from[0], stack);
      PlainProjectedFails(g, explicit, s, from[1..], stack);
      assert from == [from[0]] + from[1..];
    }
  }

  /** The value does not depend on the stack it was computed under. */
  lemma {:induction false} PlainStackIrrelevant(
    g: Graph<Subject>, explicit: Explicit, s: Subject, a: set<Subject>, b: set<Subject>)
    requires Plain(g, explicit, s, a).Ok? && Plain(g, explicit, s, b).Ok?
    ensures Plain(g, explicit, s, a) == Plain(g, explicit, s, b)
    decreases |g.Keys - a|, 1, 0
  {
    if Successors(g, s) != [] {
      assert s in g.Keys - a;
      SmallerSet(g.Keys - (a + {s}), g.Keys - a);
      PlainProjectedStackIrrelevant(g, explicit, s, Successors(g, s), a + {s}, b + {s});
    }
  }

  lemma {:induction false} PlainProjectedStackIrrelevant(
    g: Graph<Subject>, explicit: Explicit, s: Subject, from: seq<Subject>, a: set<Subject>, b: set<Subject>)
    requires PlainProjected(g, explicit, s, from, a).Ok? && PlainProjected(g, explicit, s, from, b).Ok?
    ensures PlainProjected(g, explicit, s, from, a) == PlainProjected(g, explicit, s, from, b)
    decreases |g.Keys - a|, 2, |from|
  {
    if from != [] {
      PlainStackIrrelevant(g, explicit, from[0], a, b);
      PlainProjectedStackIrrelevant(g, explicit, s, from[1..], a, b);
    }
  }

  /** The facets of a subject that reaches no cycle. */
  ghost function Facets(g: Graph<Subject>, explicit: Explicit, s: Subject): seq<Facet>
    requires !ReachesCycle(g, s)
  {
    PlainFails(g, explicit, s, {});
    Plain(g, explicit, s, {}).value
  }

  ghost predicate NoCycleFrom(g: Graph<Subject>, from: seq<Subject>) {
    forall c :: c in from ==> !ReachesCycle(g, c)
  }

  /** What the dependencies in `from` hand to `s`. */
  ghost function Projected(g: Graph<Subject>, explicit: Explicit, s: Subject, from: seq<Subject>): (r: seq<Facet>)
    requires NoCycleFrom(g, from)
  {
    if from == [] then []
    else
      Carry(s, from[0], Project, Facets(g, explicit, from[0])) + Projected(g, explicit, s, from[1..])
  }

  lemma {:induction false} ProjectedIsPlain(
    g: Graph<Subject>, explicit: Explicit, s: Subject, from: seq<Subject>, stack: set<Subject>)
    requires NoCycleFrom(g, from) && forall c :: c in from ==> !Meets(g, c, stack)
    ensures PlainProjected(g, explicit, s, from, stack) == Ok(Projected(g, explicit, s, from))
  {
    if from != [] {
      PlainFails(g, explicit, from[0], stack);
      PlainFails(g, explicit, from[0], {});
      PlainStackIrrelevant(g, explicit, from[0], stack, {});
      ProjectedIsPlain(g, explicit, s, from[1..], stack);
    }
  }

  /** The recursion equation behind the memo: a subject's facets from its dependencies' facets. */
  lemma FacetsUnfold(g: Graph<Subject>, explicit: Explicit, s: Subject)
    requires NoCycleFrom(g, Successors(g, s))
    ensures !ReachesCycle(g, s)
    ensures Facets(g, explicit, s) == Attach(explicit, s, Projected(g, explicit, s, Successors(g, s)))
  {
    if ReachesCycle(g, s) { var c := ReachesCycleUnfold(g, s); }
    PlainFails(g, explicit, s, {});
    if Successors(g, s) != [] {
      forall c | c in Successors(g, s) ensures !Meets(g, c, {s}) {
        if Meets(g, c, {s}) {
          EdgeBackClosesCycle(g, s, c);
          ReachesSelf(g, s);
        }
      }
      assert {} + {s} == {s};
      ProjectedIsPlain(g, explicit, s, Successors(g, s), {s});
    }
  }

  // ----- what the facets mean: shadowed reachability -----

  /** `e` is explicit at the end of the walk and no subject before the end has its identity. */
  ghost predicate Carries(g: Graph<Subject>, explicit: Explicit, p: seq<Subject>, e: Facet) {
    && Walk(g, p)
    && |p| > 1
    && e in ExplicitAt(explicit, p[|p| - 1])
    && e.known && e.propagation == Project
    && forall i :: 0 <= i < |p| - 1 ==> !HasIdentity(ExplicitAt(explicit, p[i]), e.identity)
  }

  /** `f` on `s` stems from a dependency walk to a subject where it is explicit. */
  ghost predicate ArrivesAlong(g: Graph<Subject>, explicit: Explicit, s: Subject, f: Facet) {
    exists p, e :: Carries(g, explicit, p, e) && p[0] == s && f == Derive(s, p[1], e)
  }

  /** The declarative meaning of "facet f is attached to subject s". */
  ghost predicate Attached(g: Graph<Subject>, explicit: Explicit, s: Subject, f: Facet) {
    f in ExplicitAt(explicit, s) || IsInherited(explicit, s, f) || ArrivesAlong(g, explicit, s, f)
  }

  lemma {:induction false} ProjectedMembers(
    g: Graph<Subject>, explicit: Explicit, s: Subject, from: seq<Subject>, f: Facet)
    requires NoCycleFrom(g, from)
    ensures f in Projected(g, explicit, s, from) <==>
      exists c, e :: c in from && e in Facets(g, explicit, c) &&
        e.known && e.propagation == Project && f == Derive(s, c, e)
  {
    hide Facets;
    if from != [] {
      CarryMembers(s, from[0], Project, Facets(g, explicit, from[0]), f);
      ProjectedMembers(g, explicit, s, from[1..], f);
      assert from == [from[0]] + from[1..];
    }
  }

  lemma CarriesLonger(g: Graph<Subject>, explicit: Explicit, s: Subject, p: seq<Subject>, e: Facet)
    requires Carries(g, explicit, p, e) && Edge(g, s, p[0])
    requires !HasIdentity(ExplicitAt(explicit, s), e.identity)
    ensures Carries(g, explicit, [s] + p, e)
  {
    var q := [s] + p;
    assert q[|q| - 1] == p[|p| - 1];
    forall i | 0 <= i < |q| - 1
      ensures Edge(g, q[i], q[i + 1]) && !HasIdentity(ExplicitAt(explicit, q[i]), e.identity)
    {
      if i > 0 { assert q[i] == p[i - 1] && q[i + 1] == p[i]; }
    }
  }

  /** A facet that could be handed on from `c` is explicit at `c` or arrived there along a walk;
      either way it reaches `s` along the walk extended by the edge. */
  lemma CarryOneStep(g: Graph<Subject>, explicit: Explicit, s: Subject, c: Subject, e: Facet)
    requires Edge(g, s, c)
    requires !HasIdentity(ExplicitAt(explicit, s), e.identity)
    requires e in ExplicitAt(explicit, c) || ArrivesAlong(g, explicit, c, e)
    requires e.known && e.propagation == Project
    ensures ArrivesAlong(g, explicit, s, Derive(s, c, e))
  {
    if e in ExplicitAt(explicit, c) {
      var p := [s, c];
      assert Carries(g, explicit, p, e);
      assert p[0] == s && p[1] == c;
    } else {
      var p, o :| Carries(g, explicit, p, o) && p[0] == c && e == Derive(c, p[1], o);
      CarriesLonger(g, explicit, s, p, o);
      var q := [s] + p;
      assert q[0] == s && q[1] == c;
      assert Derive(s, c, e) == Derive(s, q[1], o);
    }
  }

  /** The converse: the first edge of a carrying walk leads to a subject with the facet. */
  lemma ArrivesOneStep(g: Graph<Subject>, explicit: Explicit, s: Subject, f: Facet) returns (c: Subject, e: Facet)
    requires ArrivesAlong(g, explicit, s, f)
    ensures Edge(g, s, c) && Attached(g, explicit, c, e)
    ensures e.known && e.propagation == Project && f == Derive(s, c, e)
    ensures !HasIdentity(ExplicitAt(explicit, s), f.identity)
  {
    var p, o :| Carries(g, explicit, p, o) && p[0] == s && f == Derive(s, p[1], o);
    c := p[1];
    assert Edge(g, p[0], p[1]);
    if |p| == 2 {
      e := o;
    } else {
      var q := p[1..|p|];
      WalkSlice(g, p, 1, |p|);
      e := Derive(c, q[1], o);
      assert Carries(g, explicit, q, o);
      assert ArrivesAlong(g, explicit, c, e);
    }
  }

  lemma DependenciesStayClear(g: Graph<Subject>, s: Subject, stack: set<Subject>, c: Subject)
    requires !ReachesCycle(g, s) && !Meets(g, s, stack) && Edge(g, s, c)
    ensures !ReachesCycle(g, c) && !Meets(g, c, stack + {s})
  {
    ReachesEdge(g, s, c);
    if ReachesCycle(g, c) { ReachesCycleStep(g, s, c); }
    if Meets(g, c, stack + {s}) {
      var x :| x in stack + {s} && Reaches(g, c, x);
      if x == s {
        EdgeBackClosesCycle(g, s, c);
        ReachesSelf(g, s);
      } else {
        ReachesTransitive(g, s, c, x);
      }
    }
  }

  /** One level of the recursion, given the dependencies' facets. */
  lemma AttachedUnfold(g: Graph<Subject>, explicit: Explicit, s: Subject, f: Facet)
    requires NoCycleFrom(g, Successors(g, s)) && !ReachesCycle(g, s)
    requires forall c, e :: Edge(g, s, c) ==> (e in Facets(g, explicit, c) <==> Attached(g, explicit, c, e))
    ensures f in Facets(g, explicit, s) <==> Attached(g, explicit, s, f)
  {
    var projected := Projected(g, explicit, s, Successors(g, s));
    FacetsUnfold(g, explicit, s);
    AttachMembers(explicit, s, projected, f);
    ProjectedMembers(g, explicit, s, Successors(g, s), f);
    if f in projected && !HasIdentity(ExplicitAt(explicit, s), f.identity) {
      var c, e :| c in Successors(g, s) && e in Facets(g, explicit, c) &&
        e.known && e.propagation == Project && f == Derive(s, c, e);
      assert Edge(g, s, c);
      assert Attached(g, explicit, c, e);
      CarryOneStep(g, explicit, s, c, e);
    }
    if ArrivesAlong(g, explicit, s, f) {
      var c, e := ArrivesOneStep(g, explicit, s, f);
      assert e in Facets(g, explicit, c);
    }
  }

  /** Facet propagation is shadowed reachability: below any stack the subject does not run into. */
  lemma {:induction false} FacetsAreShadowedReachability(
    g: Graph<Subject>, explicit: Explicit, s: Subject, stack: set<Subject>, f: Facet)
    requires !ReachesCycle(g, s) && !Meets(g, s, stack)
    ensures f in Facets(g, explicit, s) <==> Attached(g, explicit, s, f)
    decreases |g.Keys - stack|
  {
    ReachesSelf(g, s);
    assert s !in stack;
    forall c, e | Edge(g, s, c)
      ensures !ReachesCycle(g, c) && (e in Facets(g, explicit, c) <==> Attached(g, explicit, c, e))
    {
      DependenciesStayClear(g, s, stack, c);
      assert s in g.Keys - stack;
      SmallerSet(g.Keys - (stack + {s}), g.Keys - stack);
      FacetsAreShadowedReachability(g, explicit, c, stack + {s}, e);
    }
    assert NoCycleFrom(g, Successors(g, s)) by {
      forall c | c in Successors(g, s) ensures !ReachesCycle(g, c) { DependenciesStayClear(g, s, stack, c); }
    }
    AttachedUnfold(g, explicit, s, f);
  }

  /** Everything attached to a subject names that subject. */
  lemma AttachedSubject(g: Graph<Subject>, explicit: Explicit, s: Subject, f: Facet)
    requires Attached(g, explicit, s, f)
    requires forall e :: e in ExplicitAt(explicit, s) ==> e.subject == s
    ensures f.subject == s
  {
  }

  // ----- the memoised search -----

  /** The closure that `normalize_workspace_facets` builds around `resolved` and `resolving`. */
  class Resolver {
    const graph: Graph<Subject>
    const explicit: Explicit
    var resolved: map<Subject, seq<Facet>>
    var resolving: set<Subject>

    constructor (graph: Graph<Subject>, explicit: Explicit)
      ensures this.graph == graph && this.explicit == explicit && resolved == map[] && resolving == {}
    {
      this.graph := graph;
      this.explicit := explicit;
      resolved := map[];
      resolving := {};
    }

    /** Every remembered answer is the reference answer. */
    ghost predicate Valid()
      reads this
    {
      forall s :: s in resolved ==> !ReachesCycle(graph, s) && resolved[s] == Facets(graph, explicit, s)
    }

    /** Refines the plain recursion: same facets, and a cycle error only where there is a cycle. */
    method Resolve(subject: Subject) returns (r: Result<seq<Facet>, Subject>)
      requires Valid()
      requires forall x :: x in resolving ==> StrictlyReaches(graph, x, subject)
      modifies this
      ensures Valid() && resolving == old(resolving) && old(resolved).Keys <= resolved.Keys
      ensures r.Ok? <==> !ReachesCycle(graph, subject)
      ensures r.Ok? ==> r.value == Facets(graph, explicit, subject) && subject in resolved
      ensures r.Err? ==> OnCycle(graph, r.error) && Reaches(graph, subject, r.error)
      decreases |graph.Keys - resolving|, 1
    {
      if subject in resolved {
        return Ok(resolved[subject]);
      }
      if subject in resolving {
        StrictlyReachesSelf(graph, subject);
        ReachesSelf(graph, subject);
        return Err(subject);
      }
      resolving := resolving + {subject};
      forall x, d | x in resolving && Edge(graph, subject, d) ensures StrictlyReaches(graph, x, d) {
        StrictlyReachesNext(graph, x, subject, d);
      }
      assert old(resolving) == resolving - {subject};
      var projected := ProjectedFacets(subject);
      resolving := resolving - {subject};
      match projected {
        case Err(e) =>
          r := Err(e);
        case Ok(fs) =>
          FacetsUnfold(graph, explicit, subject);
          var result := Attach(explicit, subject, fs);
          resolved := resolved[subject := result];
          r := Ok(result);
      }
    }

    method ProjectedFacets(subject: Subject) returns (r: Result<seq<Facet>, Subject>)
      requires Valid() && subject in resolving
      requires forall x, d :: x in resolving && Edge(graph, subject, d) ==> StrictlyReaches(graph, x, d)
      modifies this
      ensures Valid() && resolving == old(resolving) && old(resolved).Keys <= resolved.Keys
      ensures r.Ok? ==> NoCycleFrom(graph, Successors(graph, subject))
      ensures r.Ok? ==> r.value == Projected(graph, explicit, subject, Successors(graph, subject))
      ensures r.Err? ==> ReachesCycle(graph, subject)
      ensures r.Err? ==> OnCycle(graph, r.error) && Reaches(graph, subject, r.error)
      decreases |graph.Keys - (resolving - {subject})|, 0
    {
      var from := Successors(graph, subject);
      var projected: seq<Facet> := [];
      var i := 0;
      while i < |from|
        invariant 0 <= i <= |from|
        invariant Valid() && resolving == old(resolving) && old(resolved).Keys <= resolved.Keys
        invariant NoCycleFrom(graph, from[..i])
        invariant projected == Projected(graph, explicit, subject, from[..i])
      {
        assert Edge(graph, subject, from[i]) && subject in graph.Keys;
        SmallerSet(graph.Keys - resolving, graph.Keys - (resolving - {subject}));
        var fs := Resolve(from[i]);
        if fs.Err? {
          ReachesEdge(graph, subject, from[i]);
          ReachesTransitive(graph, subject, from[i], fs.error);
          return fs;
        }
        ProjectedAppend(graph, explicit, subject, from[..i], from[i]);
        TakeOneMore(from, i);
        projected := projected + Carry(subject, from[i], Project, fs.value);
        i := i + 1;
      }
      assert from[..i] == from;
      r := Ok(projected);
    }
  }

  lemma {:induction false} ProjectedAppend(
    g: Graph<Subject>, explicit: Explicit, s: Subject, from: seq<Subject>, c: Subject)
    requires NoCycleFrom(g, from) && !ReachesCycle(g, c)
    ensures NoCycleFrom(g, from + [c])
    ensures Projected(g, explicit, s, from + [c]) ==
            Projected(g, explicit, s, from) + Carry(s, c, Project, Facets(g, explicit, c))
  {
    hide Facets;
    var longer := from + [c];
    assert NoCycleFrom(g, longer);
    if from != [] {
      TailOfAppend(from, c);
      ProjectedAppend(g, explicit, s, from[1..], c);
    } else {
      assert Projected(g, explicit, s, longer[1..]) == [];
    }
  }
}
