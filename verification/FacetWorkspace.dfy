/** Workspace subjects, projection dependencies and the whole normalisation pass
    (cli/src/modelable/facets.py, cli/src/modelable/dependency_graph.py). */
module FacetWorkspace {
  import opened Text
  import opened Ordering
  import opened Graphs
  import opened FacetPropagation
  import opened Identity

  /** A model field; `nested` holds the fields of an object type. */
  datatype Field = Field(name: string, nested: Option<seq<Field>>)

  datatype Model = Model(name: string, version: nat, fields: seq<Field>)

  /** A property reference `alias.name`, as CEL expressions and direct mappings use it. */
  datatype PropertyRef = PropertyRef(alias: string, property: string)

  datatype Mapping = Direct(source: PropertyRef) | Computed(refs: seq<PropertyRef>) | Other

  datatype ProjectedField = ProjectedField(name: string, mapping: Mapping)

  /** `aliases` lists the source and the joins in order; None where the reference did not resolve. */
  datatype Projection = Projection(
    name: string, version: nat, aliases: seq<(string, Option<Declaration>)>, fields: seq<ProjectedField>)

  datatype Domain = Domain(name: string, models: seq<Model>, projections: seq<Projection>)

  datatype Workspace = Workspace(domains: seq<Domain>, facets: seq<Facet>)

  datatype NormalizationError =
    | MissingSubject(subject: Subject) | DuplicateFacet(facet: Facet) | PropagationCycle(at: Subject)

  function FindDomain(domains: seq<Domain>, name: string): Option<Domain> {
    if domains == [] then None
    else if domains[0].name == name then Some(domains[0]) else FindDomain(domains[1..], name)
  }

  function FindModel(models: seq<Model>, name: string, version: nat): Option<Model> {
    if models == [] then None
    else if models[0].name == name && models[0].version == version then Some(models[0])
    else FindModel(models[1..], name, version)
  }

  function FindProjection(ps: seq<Projection>, name: string, version: nat): Option<Projection> {
    if ps == [] then None
    else if ps[0].name == name && ps[0].version == version then Some(ps[0])
    else FindProjection(ps[1..], name, version)
  }

  function LookupModel(domains: seq<Domain>, d: Declaration): Option<Model> {
    match FindDomain(domains, d.domain)
    case None => None
    case Some(dom) => FindModel(dom.models, d.name, d.version)
  }

  function LookupProjection(domains: seq<Domain>, d: Declaration): Option<Projection> {
    match FindDomain(domains, d.domain)
    case None => None
    case Some(dom) => FindProjection(dom.projections, d.name, d.version)
  }

  // ----- dependency edges -----

  /** Later bindings of an alias win; unresolved ones leave an earlier binding in place. */
  function ResolveAlias(aliases: seq<(string, Option<Declaration>)>, alias: string): Option<Declaration> {
    if aliases == [] then None
    else
      var last := aliases[|aliases| - 1];
      if last.0 == alias && last.1.Some? then last.1 else ResolveAlias(aliases[..|aliases| - 1], alias)
  }

  datatype Dependency = Dependency(source: Declaration, property: string, usage: string)

  function DependenciesOfRefs(p: Projection, refs: seq<PropertyRef>, usage: string): seq<Dependency> {
    if refs == [] then []
    else
      var rest := DependenciesOfRefs(p, refs[1..], usage);
      match ResolveAlias(p.aliases, refs[0].alias)
      case None => rest
      case Some(d) => [Dependency(d, refs[0].property, usage)] + rest
  }

  function MappingDependencies(p: Projection, m: Mapping): seq<Dependency> {
    match m
    case Direct(source) => DependenciesOfRefs(p, [source], "direct")
    case Computed(refs) => DependenciesOfRefs(p, refs, "computed")
    case Other => []
  }

  /** Dependencies of the target property `name`; joins, filters and grouping name no target. */
  function DependenciesOf(p: Projection, fields: seq<ProjectedField>, name: string): seq<Dependency> {
    if fields == [] then []
    else
      (if fields[0].name == name then MappingDependencies(p, fields[0].mapping) else []) +
      DependenciesOf(p, fields[1..], name)
  }

  predicate DependencyLeq(a: Dependency, b: Dependency) {
    KeyLeq([Identity.Render(a.source), a.property, a.usage], [Identity.Render(b.source), b.property, b.usage])
  }

  function SourceSubject(domains: seq<Domain>, d: Dependency): Subject {
    Subject(
      if LookupProjection(domains, d.source).Some? then ProjectionFieldKind else FieldKind,
      SemanticPath(d.source, Split(d.property, '.')))
  }

  function SourceSubjects(domains: seq<Domain>, ds: seq<Dependency>): seq<Subject> {
    if ds == [] then [] else [SourceSubject(domains, ds[0])] + SourceSubjects(domains, ds[1..])
  }

  /** The subjects whose facets may be projected onto `s`, in the order they are visited. */
  function ProjectionSources(domains: seq<Domain>, s: Subject): seq<Subject> {
    if s.kind != ProjectionFieldKind || |s.reference.segments| != 1 then []
    else
      match LookupProjection(domains, s.reference.declaration)
      case None => []
      case Some(p) =>
        SourceSubjects(domains, SortBy(DependencyLeq, DependenciesOf(p, p.fields, s.reference.segments[0])))
  }

  // ----- subjects -----

  function FieldSubjects(d: Declaration, fields: seq<Field>): seq<Subject> {
    if fields == [] then []
    else [Subject(FieldKind, SemanticPath(d, [fields[0].name]))] + FieldSubjects(d, fields[1..])
  }

  function ProjectedFieldSubjects(d: Declaration, fields: seq<ProjectedField>): (r: seq<Subject>)
    ensures forall f :: f in fields ==> Subject(ProjectionFieldKind, SemanticPath(d, [f.name])) in r
  {
    if fields == [] then []
    else [Subject(ProjectionFieldKind, SemanticPath(d, [fields[0].name]))] + ProjectedFieldSubjects(d, fields[1..])
  }

  function ModelSubjects(domain: string, models: seq<Model>): seq<Subject> {
    if models == [] then []
    else
      var d := Declaration(domain, models[0].name, models[0].version);
      [Subject(DeclarationKind, SemanticPath(d, []))] + FieldSubjects(d, models[0].fields) +
      ModelSubjects(domain, models[1..])
  }

  function ProjectionSubjects(domain: string, ps: seq<Projection>): seq<Subject> {
    if ps == [] then []
    else
      var d := Declaration(domain, ps[0].name, ps[0].version);
      [Subject(ProjectionKind, SemanticPath(d, []))] + ProjectedFieldSubjects(d, ps[0].fields) +
      ProjectionSubjects(domain, ps[1..])
  }

  function WorkspaceSubjects(domains: seq<Domain>): seq<Subject> {
    if domains == [] then []
    else
      ModelSubjects(domains[0].name, domains[0].models) +
      ProjectionSubjects(domains[0].name, domains[0].projections) +
      WorkspaceSubjects(domains[1..])
  }

  /** Only fields that exist have dependencies, so the dependency graph is finite. */
  lemma {:induction false} SourcesNeedAField(p: Projection, fields: seq<ProjectedField>, name: string)
    ensures DependenciesOf(p, fields, name) != [] ==> exists f :: f in fields && f.name == name
  {
    if fields != [] {
      SourcesNeedAField(p, fields[1..], name);
      if fields[0].name == name {
        assert fields[0] in fields;
      } else if DependenciesOf(p, fields, name) != [] {
        var f :| f in fields[1..] && f.name == name;
        assert f in fields;
      }
    }
  }

  lemma {:induction false} FoundProjectionSubjects(domain: string, ps: seq<Projection>, name: string, version: nat)
    ensures FindProjection(ps, name, version).Some? ==>
      var p := FindProjection(ps, name, version).value;
      forall f :: f in p.fields ==>
        Subject(ProjectionFieldKind, SemanticPath(Declaration(domain, name, version), [f.name]))
          in ProjectionSubjects(domain, ps)
  {
    if ps != [] && !(ps[0].name == name && ps[0].version == version) {
      FoundProjectionSubjects(domain, ps[1..], name, version);
    }
  }

  lemma {:induction false} LookedUpProjectionSubjects(domains: seq<Domain>, d: Declaration)
    ensures LookupProjection(domains, d).Some? ==>
      forall f :: f in LookupProjection(domains, d).value.fields ==>
        Subject(ProjectionFieldKind, SemanticPath(d, [f.name])) in WorkspaceSubjects(domains)
  {
    if domains != [] {
      if domains[0].name == d.domain {
        FoundProjectionSubjects(d.domain, domains[0].projections, d.name, d.version);
      } else {
        LookedUpProjectionSubjects(domains[1..], d);
      }
    }
  }

  lemma SourcesOnlyOfSubjects(domains: seq<Domain>, s: Subject)
    ensures ProjectionSources(domains, s) != [] ==> s in WorkspaceSubjects(domains)
  {
    if ProjectionSources(domains, s) != [] {
      var p := LookupProjection(domains, s.reference.declaration).value;
      var name := s.reference.segments[0];
      SourcesNeedAField(p, p.fields, name);
      LookedUpProjectionSubjects(domains, s.reference.declaration);
      assert s.reference == SemanticPath(s.reference.declaration, [name]);
    }
  }

  /** The dependency graph of the workspace. */
  function DependencyGraph(domains: seq<Domain>): Graph<Subject> {
    map s | s in WorkspaceSubjects(domains) :: ProjectionSources(domains, s)
  }

  lemma GraphSuccessors(domains: seq<Domain>, s: Subject)
    ensures Successors(DependencyGraph(domains), s) == ProjectionSources(domains, s)
  {
    SourcesOnlyOfSubjects(domains, s);
  }

  // ----- explicit facets -----

  function FindField(fields: seq<Field>, name: string): Option<Field> {
    if fields == [] then None
    else if fields[0].name == name then Some(fields[0]) else FindField(fields[1..], name)
  }

  function WithoutSuffix(s: string, suffix: string): string {
    if EndsWith(s, suffix) then s[..|s| - |suffix|] else s
  }

  predicate FieldPathExists(fields: seq<Field>, segments: seq<string>)
    decreases |segments|
  {
    if segments == [] || segments[0] in ["[]", "{}", "{key}"] then false
    else
      var name := WithoutSuffix(WithoutSuffix(WithoutSuffix(segments[0], "[]"), "{}"), "{key}");
      match FindField(fields, name)
      case None => false
      case Some(f) => |segments| == 1 || (f.nested.Some? && FieldPathExists(f.nested.value, segments[1..]))
  }

  predicate SubjectExists(domains: seq<Domain>, s: Subject) {
    var d := s.reference.declaration;
    match s.kind
    case DeclarationKind => LookupModel(domains, d).Some?
    case ProjectionKind => LookupProjection(domains, d).Some?
    case FieldKind =>
      LookupModel(domains, d).Some? && FieldPathExists(LookupModel(domains, d).value.fields, s.reference.segments)
    case ProjectionFieldKind =>
      && LookupProjection(domains, d).Some?
      && |s.reference.segments| == 1
      && exists f :: f in LookupProjection(domains, d).value.fields && f.name == s.reference.segments[0]
  }

  function FacetsOn(fs: seq<Facet>, s: Subject): seq<Facet> {
    if fs == [] then []
    else
      var rest := FacetsOn(fs[..|fs| - 1], s);
      if fs[|fs| - 1].subject == s then rest + [fs[|fs| - 1]] else rest
  }

  lemma {:induction false} FacetsOnMembers(fs: seq<Facet>, s: Subject, f: Facet)
    ensures f in FacetsOn(fs, s) <==> f in fs && f.subject == s
  {
    if fs != [] {
      FacetsOnMembers(fs[..|fs| - 1], s, f);
      assert fs == fs[..|fs| - 1] + [fs[|fs| - 1]];
    }
  }

  lemma {:induction false} FacetsOnMultiplicity(fs: seq<Facet>, s: Subject, f: Facet)
    ensures multiset(FacetsOn(fs, s))[f] == if f.subject == s then multiset(fs)[f] else 0
  {
    if fs != [] {
      FacetsOnMultiplicity(fs[..|fs| - 1], s, f);
      assert fs == fs[..|fs| - 1] + [fs[|fs| - 1]];
    }
  }

  function SubjectsOf(fs: seq<Facet>): set<Subject> { set f | f in fs :: f.subject }

  /** The explicit facets grouped by subject, each group in key order. */
  function Grouped(fs: seq<Facet>): Explicit {
    map s | s in SubjectsOf(fs) :: SortBy(FacetLeq, FacetsOn(fs, s))
  }

  /** No facet names a missing subject, no subject carries one identity twice. */
  ghost predicate ValidFacets(domains: seq<Domain>, fs: seq<Facet>) {
    && (forall f :: f in fs ==> SubjectExists(domains, f.subject))
    && (forall i, j :: 0 <= i < j < |fs| ==> (fs[i].subject, fs[i].identity) != (fs[j].subject, fs[j].identity))
  }

  function FacetKeys(fs: seq<Facet>): set<(Subject, string)> { set f | f in fs :: (f.subject, f.identity) }

  lemma ValidOneMore(domains: seq<Domain>, fs: seq<Facet>, i: nat)
    requires i < |fs|
    ensures ValidFacets(domains, fs[..i + 1]) <==>
      ValidFacets(domains, fs[..i]) && SubjectExists(domains, fs[i].subject) &&
      (fs[i].subject, fs[i].identity) !in FacetKeys(fs[..i])
    ensures ValidFacets(domains, fs) ==> ValidFacets(domains, fs[..i + 1])
  {
    assert forall k :: 0 <= k < i ==> fs[..i][k] in fs[..i];
    assert forall k :: 0 <= k <= i ==> fs[..i + 1][k] == fs[k] && fs[k] in fs[..i + 1];
  }

  lemma GroupOneMore(fs: seq<Facet>, i: nat, s: Subject)
    requires i < |fs|
    ensures FacetKeys(fs[..i + 1]) == FacetKeys(fs[..i]) + {(fs[i].subject, fs[i].identity)}
    ensures SubjectsOf(fs[..i + 1]) == SubjectsOf(fs[..i]) + {fs[i].subject}
    ensures FacetsOn(fs[..i + 1], s) ==
      if fs[i].subject == s then FacetsOn(fs[..i], s) + [fs[i]] else FacetsOn(fs[..i], s)
  {
    TakeOneMore(fs, i);
  }

  /** What the loop has gathered from the facets read so far. */
  ghost predicate Gathered(fs: seq<Facet>, lists: map<Subject, seq<Facet>>, seen: set<(Subject, string)>) {
    && seen == FacetKeys(fs)
    && lists.Keys == SubjectsOf(fs)
    && forall s :: s in lists ==> lists[s] == FacetsOn(fs, s)
  }

  lemma GatheredOneMore(fs: seq<Facet>, i: nat, lists: map<Subject, seq<Facet>>, seen: set<(Subject, string)>)
    requires i < |fs| && Gathered(fs[..i], lists, seen)
    ensures var f := fs[i];
      Gathered(fs[..i + 1],
               lists[f.subject := (if f.subject in lists then lists[f.subject] else []) + [f]],
               seen + {(f.subject, f.identity)})
  {
    var f := fs[i];
    var longer := lists[f.subject := (if f.subject in lists then lists[f.subject] else []) + [f]];
    if f.subject !in lists { NothingOn(fs[..i], f.subject); }
    GroupOneMore(fs, i, f.subject);
    forall s | s in longer ensures longer[s] == FacetsOn(fs[..i + 1], s) {
      GroupOneMore(fs, i, s);
    }
  }

  method ExplicitBySubject(w: Workspace) returns (r: Result<Explicit, NormalizationError>)
    ensures r.Ok? <==> ValidFacets(w.domains, w.facets)
    ensures r.Ok? ==> r.value == Grouped(w.facets)
    ensures r.Err? ==> !r.error.PropagationCycle?
  {
    var fs := w.facets;
    var lists: map<Subject, seq<Facet>> := map[];
    var seen: set<(Subject, string)> := {};
    var i := 0;
    while i < |fs|
      invariant 0 <= i <= |fs|
      invariant ValidFacets(w.domains, fs[..i])
      invariant Gathered(fs[..i], lists, seen)
    {
      var f := fs[i];
      ValidOneMore(w.domains, fs, i);
      if !SubjectExists(w.domains, f.subject) {
        return Err(MissingSubject(f.subject));
      }
      var key := (f.subject, f.identity);
      if key in seen {
        return Err(DuplicateFacet(f));
      }
      GatheredOneMore(fs, i, lists, seen);
      seen := seen + {key};
      lists := lists[f.subject := (if f.subject in lists then lists[f.subject] else []) + [f]];
      i := i + 1;
    }
    TakeAll(fs);
    r := Ok(map s | s in lists :: SortBy(FacetLeq, lists[s]));
  }

  lemma NothingOn(fs: seq<Facet>, s: Subject)
    requires s !in SubjectsOf(fs)
    ensures FacetsOn(fs, s) == []
  {
    if FacetsOn(fs, s) != [] { FacetsOnMembers(fs, s, FacetsOn(fs, s)[0]); }
  }

  // ----- the whole pass -----

  predicate SubjectLeq(a: Subject, b: Subject) { StringLeq(Canonical(a), Canonical(b)) }

  function FacetSubjects(fs: seq<Facet>): (r: seq<Subject>)
    ensures |r| == |fs| && forall i :: 0 <= i < |fs| ==> r[i] == fs[i].subject
  {
    seq(|fs|, i requires 0 <= i < |fs| => fs[i].subject)
  }

  lemma FacetSubjectsMembers(fs: seq<Facet>, s: Subject)
    ensures s in FacetSubjects(fs) <==> s in SubjectsOf(fs)
  {
    if s in SubjectsOf(fs) {
      var f :| f in fs && f.subject == s;
      var i :| 0 <= i < |fs| && fs[i] == f;
      assert FacetSubjects(fs)[i] == s;
    }
  }

  function VisitOrder(w: Workspace): seq<Subject> {
    SortBy(SubjectLeq, Distinct(WorkspaceSubjects(w.domains) + FacetSubjects(w.facets)))
  }

  ghost predicate Resolvable(w: Workspace) {
    NoCycleFrom(DependencyGraph(w.domains), VisitOrder(w))
  }

  ghost function FacetsOfAll(g: Graph<Subject>, explicit: Explicit, subjects: seq<Subject>): seq<Facet>
    requires NoCycleFrom(g, subjects)
  {
    if subjects == [] then []
    else FacetsOfAll(g, explicit, subjects[..|subjects| - 1]) + Facets(g, explicit, subjects[|subjects| - 1])
  }

  /** The normalised facets of a workspace without propagation cycles. */
  ghost function Normalized(w: Workspace): seq<Facet>
    requires Resolvable(w)
  {
    SortBy(FacetLeq, FacetsOfAll(DependencyGraph(w.domains), Grouped(w.facets), VisitOrder(w)))
  }

  /** Rejects exactly the malformed and the cyclic workspaces, and otherwise computes `Normalized`. */
  method NormalizeWorkspaceFacets(w: Workspace) returns (r: Result<seq<Facet>, NormalizationError>)
    ensures r.Ok? <==> ValidFacets(w.domains, w.facets) && Resolvable(w)
    ensures r.Err? && r.error.PropagationCycle? ==>
      ValidFacets(w.domains, w.facets) && OnCycle(DependencyGraph(w.domains), r.error.at)
    ensures r.Ok? ==> r.value == Normalized(w)
  {
    hide ValidFacets, DependencyGraph, VisitOrder, Grouped, Facets, SortBy, OnCycle;
    var grouped := ExplicitBySubject(w);
    if grouped.Err? {
      return Err(grouped.error);
    }
    var subjects := VisitOrder(w);
    var resolver := new Resolver(DependencyGraph(w.domains), grouped.value);
    var normalized: seq<Facet> := [];
    var i := 0;
    while i < |subjects|
      invariant 0 <= i <= |subjects|
      invariant resolver.Valid() && resolver.resolving == {}
      invariant NoCycleFrom(resolver.graph, subjects[..i])
      invariant normalized == FacetsOfAll(resolver.graph, resolver.explicit, subjects[..i])
    {
      var fs := resolver.Resolve(subjects[i]);
      if fs.Err? {
        assert subjects[i] in subjects;
        return Err(PropagationCycle(fs.error));
      }
      TakeOneMore(subjects, i);
      normalized := normalized + fs.value;
      i := i + 1;
    }
    TakeAll(subjects);
    r := Ok(SortBy(FacetLeq, normalized));
  }

  lemma {:induction false} FacetsOfAllMembers(g: Graph<Subject>, explicit: Explicit, subjects: seq<Subject>, f: Facet)
    requires NoCycleFrom(g, subjects)
    ensures f in FacetsOfAll(g, explicit, subjects) <==> exists s :: s in subjects && f in Facets(g, explicit, s)
  {
    if subjects != [] {
      var n := |subjects| - 1;
      FacetsOfAllMembers(g, explicit, subjects[..n], f);
      SplitLast(subjects);
    }
  }

  lemma VisitOrderMembers(w: Workspace, s: Subject)
    ensures s in VisitOrder(w) <==> s in WorkspaceSubjects(w.domains) || s in SubjectsOf(w.facets)
  {
    FacetSubjectsMembers(w.facets, s);
  }

  lemma GroupedSubjects(w: Workspace, s: Subject, e: Facet)
    requires e in ExplicitAt(Grouped(w.facets), s)
    ensures e.subject == s && e in w.facets
  {
    FacetsOnMembers(w.facets, s, e);
  }

  /** The meaning of a normalised workspace: a facet is listed exactly when its subject is known and
      it is explicit there, inherited there, or arrives along an unshadowed dependency walk. */
  lemma NormalizedMeaning(w: Workspace, f: Facet)
    requires Resolvable(w)
    ensures f in Normalized(w) <==>
      f.subject in VisitOrder(w) && Attached(DependencyGraph(w.domains), Grouped(w.facets), f.subject, f)
  {
    var g, explicit := DependencyGraph(w.domains), Grouped(w.facets);
    FacetsOfAllMembers(g, explicit, VisitOrder(w), f);
    forall s | s in VisitOrder(w)
      ensures f in Facets(g, explicit, s) <==> Attached(g, explicit, s, f)
      ensures Attached(g, explicit, s, f) ==> f.subject == s
    {
      FacetsAreShadowedReachability(g, explicit, s, {}, f);
      forall e | e in ExplicitAt(explicit, s) ensures e.subject == s { GroupedSubjects(w, s, e); }
      if Attached(g, explicit, s, f) { AttachedSubject(g, explicit, s, f); }
    }
  }

  lemma FacetOrder()
    ensures Preorder(FacetLeq) && Preorder(SubjectLeq)
  {
    KeyOrder();
    StringOrder();
    forall a, b, c | FacetLeq(a, b) && FacetLeq(b, c) ensures FacetLeq(a, c) {
      assert KeyLeq(SortKey(a), SortKey(c));
    }
  }

  lemma KeySeparatesFacets(domains: seq<Domain>, fs: seq<Facet>, s: Subject)
    requires ValidFacets(domains, fs)
    ensures Separates(FacetLeq, FacetsOn(fs, s))
  {
    forall e, f | e in FacetsOn(fs, s) && f in FacetsOn(fs, s) && FacetLeq(e, f) && FacetLeq(f, e) ensures e == f {
      FacetsOnMembers(fs, s, e);
      FacetsOnMembers(fs, s, f);
      KeyOrder();
      assert SortKey(e)[1] == SortKey(f)[1];
      var i :| 0 <= i < |fs| && fs[i] == e;
      var j :| 0 <= j < |fs| && fs[j] == f;
      assert !(i < j) && !(j < i);
    }
  }

  lemma SameFacetsOn(a: seq<Facet>, b: seq<Facet>, s: Subject)
    requires multiset(a) == multiset(b)
    ensures multiset(FacetsOn(a, s)) == multiset(FacetsOn(b, s))
  {
    forall f ensures multiset(FacetsOn(a, s))[f] == multiset(FacetsOn(b, s))[f] {
      FacetsOnMultiplicity(a, s, f);
      FacetsOnMultiplicity(b, s, f);
    }
  }

  lemma SameSubjects(a: seq<Facet>, b: seq<Facet>)
    requires multiset(a) == multiset(b)
    ensures SubjectsOf(a) == SubjectsOf(b)
  {
    assert forall f :: f in a <==> f in multiset(a);
    assert forall f :: f in b <==> f in multiset(b);
  }

  lemma SameGroups(domains: seq<Domain>, a: seq<Facet>, b: seq<Facet>)
    requires ValidFacets(domains, a) && multiset(a) == multiset(b)
    ensures Grouped(a) == Grouped(b)
  {
    SameSubjects(a, b);
    FacetOrder();
    forall s | s in SubjectsOf(a) ensures Grouped(a)[s] == Grouped(b)[s] {
      SameFacetsOn(a, b, s);
      KeySeparatesFacets(domains, a, s);
      SortByCanonical(FacetLeq, FacetsOn(a, s), FacetsOn(b, s));
    }
  }

  lemma KindTextInjective(a: SubjectKind, b: SubjectKind)
    requires |KindText(a)| == |KindText(b)|
    ensures a == b
  {
  }

  lemma CanonicalSplits(s: Subject)
    ensures IndexOf(Canonical(s), ':') == |KindText(s.kind)|
    ensures Canonical(s)[|KindText(s.kind)| + 1..] == Identity.RenderReference(s.reference)
  {
    assert ':' !in KindText(s.kind);
    FirstSeparator(KindText(s.kind), ':', Identity.RenderReference(s.reference));
    assert Canonical(s) == KindText(s.kind) + [':'] + Identity.RenderReference(s.reference);
  }

  /** Distinct subjects have distinct canonical texts. */
  lemma CanonicalInjective(a: Subject, b: Subject)
    requires Identity.ValidReference(a.reference) && Identity.ValidReference(b.reference)
    requires Canonical(a) == Canonical(b)
    ensures a == b
  {
    CanonicalSplits(a);
    CanonicalSplits(b);
    KindTextInjective(a.kind, b.kind);
    Identity.RenderingInjective(a.reference, b.reference);
  }

  predicate CanonicalSubjects(w: Workspace) {
    forall i :: 0 <= i < |VisitOrder(w)| ==> Identity.ValidReference(VisitOrder(w)[i].reference)
  }

  lemma SameVisitOrder(v: Workspace, w: Workspace)
    requires v.domains == w.domains && multiset(v.facets) == multiset(w.facets) && CanonicalSubjects(v)
    ensures VisitOrder(v) == VisitOrder(w)
  {
    var a := WorkspaceSubjects(v.domains) + FacetSubjects(v.facets);
    var b := WorkspaceSubjects(w.domains) + FacetSubjects(w.facets);
    SameSubjects(v.facets, w.facets);
    forall s ensures s in a <==> s in b {
      VisitOrderMembers(v, s);
      VisitOrderMembers(w, s);
    }
    FacetOrder();
    forall x, y | x in a && y in a && SubjectLeq(x, y) && SubjectLeq(y, x) ensures x == y {
      assert x in VisitOrder(v) && y in VisitOrder(v);
      StringOrder();
      CanonicalInjective(x, y);
    }
    SortDistinctCanonical(SubjectLeq, a, b);
  }

  lemma ValidFacetsPermuted(domains: seq<Domain>, a: seq<Facet>, b: seq<Facet>)
    requires ValidFacets(domains, a) && multiset(a) == multiset(b)
    ensures ValidFacets(domains, b)
  {
    hide SubjectExists;
    forall f | f in b ensures SubjectExists(domains, f.subject) { assert f in multiset(a); }
    forall i, j | 0 <= i < j < |b| ensures (b[i].subject, b[i].identity) != (b[j].subject, b[j].identity) {
      var k, l := PermutedPair(b, a, i, j);
      assert k < l ==> (a[k].subject, a[k].identity) != (a[l].subject, a[l].identity);
      assert l < k ==> (a[l].subject, a[l].identity) != (a[k].subject, a[k].identity);
    }
  }

  /** Two workspaces that list the same facets in a different order are refused or normalised alike. */
  lemma NormalizationIgnoresOrder(v: Workspace, w: Workspace)
    requires v.domains == w.domains && multiset(v.facets) == multiset(w.facets) && CanonicalSubjects(v)
    ensures ValidFacets(v.domains, v.facets) <==> ValidFacets(w.domains, w.facets)
    ensures Resolvable(v) <==> Resolvable(w)
    ensures ValidFacets(v.domains, v.facets) && Resolvable(v) ==> Normalized(v) == Normalized(w)
  {
    hide ValidFacets, DependencyGraph;
    SameVisitOrder(v, w);
    if ValidFacets(w.domains, w.facets) { ValidFacetsPermuted(w.domains, w.facets, v.facets); }
    if ValidFacets(v.domains, v.facets) {
      ValidFacetsPermuted(v.domains, v.facets, w.facets);
      SameGroups(v.domains, v.facets, w.facets);
    }
  }
}
