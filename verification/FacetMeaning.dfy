/** What the workspace says: the dependencies, subjects and existing paths that FacetWorkspace computes,
    in terms of the declarations they come from, and what normalisation makes of them end to end. */
module FacetMeaning {
  import opened Text
  import opened Ordering
  import opened Graphs
  import opened FacetPropagation
  import opened FacetWorkspace
  import opened Identity

  // ----- declarations -----

  /** The first domain of the name. */
  ghost predicate DeclaresDomain(domains: seq<Domain>, name: string, domain: Domain) {
    exists i :: 0 <= i < |domains| && domains[i] == domain && domain.name == name &&
      forall k :: 0 <= k < i ==> domains[k].name != name
  }

  /** The domain's first model of the name and version. */
  ghost predicate DeclaresModel(domains: seq<Domain>, d: Declaration, m: Model) {
    exists domain, i :: DeclaresDomain(domains, d.domain, domain) && FirstModel(domain.models, d, m, i)
  }

  ghost predicate FirstModel(models: seq<Model>, d: Declaration, m: Model, i: int) {
    0 <= i < |models| && models[i] == m && m.name == d.name && m.version == d.version &&
    forall k :: 0 <= k < i ==> !(models[k].name == d.name && models[k].version == d.version)
  }

  ghost predicate DeclaresProjection(domains: seq<Domain>, d: Declaration, p: Projection) {
    exists domain, i :: DeclaresDomain(domains, d.domain, domain) && FirstProjection(domain.projections, d, p, i)
  }

  ghost predicate FirstProjection(ps: seq<Projection>, d: Declaration, p: Projection, i: int) {
    0 <= i < |ps| && ps[i] == p && p.name == d.name && p.version == d.version &&
    forall k :: 0 <= k < i ==> !(ps[k].name == d.name && ps[k].version == d.version)
  }

  lemma {:induction false} FindDomainFirst(domains: seq<Domain>, name: string, domain: Domain)
    ensures FindDomain(domains, name) == Some(domain) <==> DeclaresDomain(domains, name, domain)
  {
    if domains != [] {
      FindDomainFirst(domains[1..], name, domain);
      if DeclaresDomain(domains[1..], name, domain) && domains[0].name != name {
        var i :| 0 <= i < |domains[1..]| && domains[1..][i] == domain && domain.name == name &&
          forall k :: 0 <= k < i ==> domains[1..][k].name != name;
        assert domains[i + 1] == domain;
        forall k | 0 <= k < i + 1 ensures domains[k].name != name {
          if k > 0 { assert domains[1..][k - 1] == domains[k]; }
        }
      }
      if DeclaresDomain(domains, name, domain) && domains[0].name != name {
        var i :| 0 <= i < |domains| && domains[i] == domain && domain.name == name &&
          forall k :: 0 <= k < i ==> domains[k].name != name;
        assert domains[1..][i - 1] == domain;
      }
    }
  }

  lemma {:induction false} FindModelFirst(models: seq<Model>, d: Declaration, m: Model)
    ensures FindModel(models, d.name, d.version) == Some(m) <==> exists i :: FirstModel(models, d, m, i)
  {
    if models != [] {
      FindModelFirst(models[1..], d, m);
      if models[0].name == d.name && models[0].version == d.version {
        assert FirstModel(models, d, models[0], 0);
      } else {
        if i :| FirstModel(models[1..], d, m, i) {
          forall k | 0 <= k < i + 1 ensures !(models[k].name == d.name && models[k].version == d.version) {
            if k > 0 { assert models[1..][k - 1] == models[k]; }
          }
          assert FirstModel(models, d, m, i + 1);
        }
        if i :| FirstModel(models, d, m, i) { assert FirstModel(models[1..], d, m, i - 1); }
      }
    }
  }

  lemma {:induction false} FindProjectionFirst(ps: seq<Projection>, d: Declaration, p: Projection)
    ensures FindProjection(ps, d.name, d.version) == Some(p) <==> exists i :: FirstProjection(ps, d, p, i)
  {
    if ps != [] {
      FindProjectionFirst(ps[1..], d, p);
      if ps[0].name == d.name && ps[0].version == d.version {
        assert FirstProjection(ps, d, ps[0], 0);
      } else {
        if i :| FirstProjection(ps[1..], d, p, i) {
          forall k | 0 <= k < i + 1 ensures !(ps[k].name == d.name && ps[k].version == d.version) {
            if k > 0 { assert ps[1..][k - 1] == ps[k]; }
          }
          assert FirstProjection(ps, d, p, i + 1);
        }
        if i :| FirstProjection(ps, d, p, i) { assert FirstProjection(ps[1..], d, p, i - 1); }
      }
    }
  }

  /** Lookups find exactly what is declared. */
  lemma LookupMeans(domains: seq<Domain>, d: Declaration, m: Model, p: Projection)
    ensures LookupModel(domains, d) == Some(m) <==> DeclaresModel(domains, d, m)
    ensures LookupProjection(domains, d) == Some(p) <==> DeclaresProjection(domains, d, p)
  {
    hide FindDomain, FindModel, FindProjection, DeclaresDomain, FirstModel, FirstProjection;
    forall domain ensures FindDomain(domains, d.domain) == Some(domain) <==> DeclaresDomain(domains, d.domain, domain) {
      FindDomainFirst(domains, d.domain, domain);
    }
    if domain :| FindDomain(domains, d.domain) == Some(domain) {
      FindModelFirst(domain.models, d, m);
      FindProjectionFirst(domain.projections, d, p);
    }
  }

  // ----- dependencies -----

  /** The last resolved binding of the alias. */
  ghost predicate Binds(aliases: seq<(string, Option<Declaration>)>, alias: string, d: Declaration) {
    exists i :: 0 <= i < |aliases| && aliases[i] == (alias, Some(d)) &&
      forall k :: i < k < |aliases| ==> !(aliases[k].0 == alias && aliases[k].1.Some?)
  }

  lemma {:induction false} ResolveAliasBinds(
    aliases: seq<(string, Option<Declaration>)>, alias: string, d: Declaration)
    ensures ResolveAlias(aliases, alias) == Some(d) <==> Binds(aliases, alias, d)
  {
    if aliases != [] {
      var n := |aliases| - 1;
      ResolveAliasBinds(aliases[..n], alias, d);
      if aliases[n].0 == alias && aliases[n].1.Some? {
        if aliases[n].1 == Some(d) { assert aliases[n] == (alias, Some(d)); }
      } else {
        if Binds(aliases[..n], alias, d) {
          var i :| 0 <= i < n && aliases[..n][i] == (alias, Some(d)) &&
            forall k :: i < k < n ==> !(aliases[..n][k].0 == alias && aliases[..n][k].1.Some?);
          assert aliases[i] == (alias, Some(d));
          forall k | i < k < |aliases| ensures !(aliases[k].0 == alias && aliases[k].1.Some?) {
            if k < n { assert aliases[..n][k] == aliases[k]; }
          }
        }
        if Binds(aliases, alias, d) {
          var i :| 0 <= i < |aliases| && aliases[i] == (alias, Some(d)) &&
            forall k :: i < k < |aliases| ==> !(aliases[k].0 == alias && aliases[k].1.Some?);
          assert aliases[..n][i] == (alias, Some(d));
        }
      }
    }
  }

  /** The property references of a mapping, with the usage they count as. */
  ghost predicate Refers(m: Mapping, ref: PropertyRef, usage: string) {
    (m == Direct(ref) && usage == "direct") || (m.Computed? && ref in m.refs && usage == "computed")
  }

  lemma {:induction false} DependenciesOfRefsMembers(
    p: Projection, refs: seq<PropertyRef>, usage: string, x: Dependency)
    ensures x in DependenciesOfRefs(p, refs, usage) <==>
      x.usage == usage && exists ref ::
        ref in refs && x.property == ref.property && Binds(p.aliases, ref.alias, x.source)
  {
    if refs != [] {
      DependenciesOfRefsMembers(p, refs[1..], usage, x);
      ResolveAliasBinds(p.aliases, refs[0].alias, x.source);
      assert refs == [refs[0]] + refs[1..];
    }
  }

  /** A dependency of the named target property. */
  ghost predicate IsDependency(p: Projection, fields: seq<ProjectedField>, name: string, x: Dependency) {
    exists f, ref :: f in fields && f.name == name && Refers(f.mapping, ref, x.usage) &&
      x.property == ref.property && Binds(p.aliases, ref.alias, x.source)
  }

  lemma MappingDependenciesMembers(p: Projection, m: Mapping, x: Dependency)
    ensures x in MappingDependencies(p, m) <==>
      exists ref :: Refers(m, ref, x.usage) && x.property == ref.property && Binds(p.aliases, ref.alias, x.source)
  {
    hide Binds, DependenciesOfRefs;
    match m
    case Direct(source) =>
      DependenciesOfRefsMembers(p, [source], "direct", x);
      assert forall ref :: Refers(m, ref, x.usage) <==> ref in [source] && x.usage == "direct";
    case Computed(refs) =>
      DependenciesOfRefsMembers(p, refs, "computed", x);
      assert forall ref :: Refers(m, ref, x.usage) <==> ref in refs && x.usage == "computed";
    case Other =>
  }

  lemma {:induction false} DependenciesOfMembers(
    p: Projection, fields: seq<ProjectedField>, name: string, x: Dependency)
    ensures x in DependenciesOf(p, fields, name) <==> IsDependency(p, fields, name, x)
  {
    hide Binds, Refers, MappingDependencies;
    if fields != [] {
      DependenciesOfMembers(p, fields[1..], name, x);
      MappingDependenciesMembers(p, fields[0].mapping, x);
      assert fields == [fields[0]] + fields[1..];
    }
  }

  /** The subject of a property: a projection's field or a model's, by what its declaration is. */
  ghost predicate IsProperty(domains: seq<Domain>, d: Declaration, property: string, t: Subject) {
    && t.reference.declaration == d && t.reference.segments != [] && Join(t.reference.segments, '.') == property
    && (forall i :: 0 <= i < |t.reference.segments| ==> '.' !in t.reference.segments[i])
    && t.kind == if exists p :: DeclaresProjection(domains, d, p) then ProjectionFieldKind else FieldKind
  }

  lemma SourceSubjectIs(domains: seq<Domain>, x: Dependency, t: Subject)
    ensures t == SourceSubject(domains, x) <==> IsProperty(domains, x.source, x.property, t)
  {
    hide LookupProjection, DeclaresProjection, Split, Join;
    var segments := t.reference.segments;
    assert LookupProjection(domains, x.source).Some? <==> exists p :: DeclaresProjection(domains, x.source, p) by {
      forall p ensures LookupProjection(domains, x.source) == Some(p) <==> DeclaresProjection(domains, x.source, p) {
        LookupMeans(domains, x.source, Model("", 0, []), p);
      }
      if LookupProjection(domains, x.source).Some? {
        assert DeclaresProjection(domains, x.source, LookupProjection(domains, x.source).value);
      }
    }
    JoinOfSplit(x.property, '.');
    if IsProperty(domains, x.source, x.property, t) { SplitOfJoin(segments, '.'); }
  }

  /** The text the source subject is looked up under: the kind, the declaration, `#` and the property. */
  lemma SourceSubjectText(domains: seq<Domain>, x: Dependency)
    ensures Canonical(SourceSubject(domains, x)) ==
      (if exists p :: DeclaresProjection(domains, x.source, p) then "projection_field" else "field") +
      ":" + (Render(x.source) + "#" + x.property)
  {
    hide LookupProjection, DeclaresProjection, Split, Join, Render;
    SourceSubjectIs(domains, x, SourceSubject(domains, x));
  }

  ghost predicate HasProjectedField(domains: seq<Domain>, d: Declaration, name: string) {
    exists p, f :: DeclaresProjection(domains, d, p) && f in p.fields && f.name == name
  }

  /** The declaration is a model, not a projection, and has the field. */
  ghost predicate HasModelField(domains: seq<Domain>, d: Declaration, name: string) {
    && (forall p :: !DeclaresProjection(domains, d, p))
    && exists m, f :: DeclaresModel(domains, d, m) && f in m.fields && f.name == name
  }

  /** A property that its declaration has is looked up under a subject that exists. */
  lemma SourceExists(domains: seq<Domain>, x: Dependency)
    requires IsIdentifier(x.property)
    ensures HasProjectedField(domains, x.source, x.property) ==>
      SubjectExists(domains, SourceSubject(domains, x)) && SourceSubject(domains, x).kind == ProjectionFieldKind
    ensures HasModelField(domains, x.source, x.property) ==>
      SubjectExists(domains, SourceSubject(domains, x)) && SourceSubject(domains, x).kind == FieldKind
  {
    hide LookupProjection, LookupModel, DeclaresProjection, DeclaresModel, FieldPathExists;
    PlainProperty(domains, x);
    if HasProjectedField(domains, x.source, x.property) {
      var p, f :| DeclaresProjection(domains, x.source, p) && f in p.fields && f.name == x.property;
      LookupMeans(domains, x.source, Model("", 0, []), p);
    }
    if HasModelField(domains, x.source, x.property) {
      var m, f :| DeclaresModel(domains, x.source, m) && f in m.fields && f.name == x.property;
      LookupMeans(domains, x.source, m, Projection("", 0, [], []));
      OneFieldPath(m.fields, x.property);
    }
  }

  lemma PlainProperty(domains: seq<Domain>, x: Dependency)
    requires IsIdentifier(x.property)
    ensures SourceSubject(domains, x).reference == SemanticPath(x.source, [x.property])
    ensures SourceSubject(domains, x).kind ==
      if exists p :: DeclaresProjection(domains, x.source, p) then ProjectionFieldKind else FieldKind
  {
    hide LookupProjection, DeclaresProjection, SourceSubject;
    var t := SourceSubject(domains, x);
    SourceSubjectIs(domains, x, t);
    SourceSubjectIs(domains, x, Subject(t.kind, SemanticPath(x.source, [x.property])));
  }

  lemma {:induction false} FoundField(fields: seq<Field>, name: string)
    ensures FindField(fields, name).Some? <==> exists f :: f in fields && f.name == name
  {
    if fields != [] {
      FoundField(fields[1..], name);
      assert fields == [fields[0]] + fields[1..];
    }
  }

  lemma OneFieldPath(fields: seq<Field>, name: string)
    requires IsIdentifier(name) && exists f :: f in fields && f.name == name
    ensures FieldPathExists(fields, [name])
  {
    FoundField(fields, name);
    BareOfIdentifier(name);
  }

  lemma BareOfIdentifier(name: string)
    requires IsIdentifier(name)
    ensures name !in ["[]", "{}", "{key}"]
    ensures !EndsWith(name, "[]") && !EndsWith(name, "{}") && !EndsWith(name, "{key}")
  {
    assert "[]"[1] == ']' && "{}"[1] == '}' && "{key}"[4] == '}';
    assert IsLetter(name[|name| - 1]) || IsDigit(name[|name| - 1]);
  }

  /** `s` is a field of a projection and `t` a property that one of its expressions reads. */
  ghost predicate DependsOn(domains: seq<Domain>, s: Subject, t: Subject) {
    exists p, name, x ::
      s == Subject(ProjectionFieldKind, SemanticPath(s.reference.declaration, [name])) &&
      DeclaresProjection(domains, s.reference.declaration, p) && IsDependency(p, p.fields, name, x) &&
      IsProperty(domains, x.source, x.property, t)
  }

  lemma {:induction false} SourceSubjectsMembers(domains: seq<Domain>, ds: seq<Dependency>, t: Subject)
    ensures t in SourceSubjects(domains, ds) <==> exists x :: x in ds && t == SourceSubject(domains, x)
  {
    if ds != [] {
      SourceSubjectsMembers(domains, ds[1..], t);
      assert ds == [ds[0]] + ds[1..];
    }
  }

  lemma SourcesOfProjection(domains: seq<Domain>, d: Declaration, p: Projection, name: string, t: Subject)
    requires DeclaresProjection(domains, d, p)
    ensures t in ProjectionSources(domains, Subject(ProjectionFieldKind, SemanticPath(d, [name]))) <==>
      exists x :: IsDependency(p, p.fields, name, x) && IsProperty(domains, x.source, x.property, t)
  {
    hide DeclaresProjection, LookupProjection, IsDependency, IsProperty, SourceSubject, SortBy, DependenciesOf;
    LookupMeans(domains, d, Model("", 0, []), p);
    var ds := DependenciesOf(p, p.fields, name);
    SourceSubjectsMembers(domains, SortBy(DependencyLeq, ds), t);
    forall x ensures x in SortBy(DependencyLeq, ds) <==> IsDependency(p, p.fields, name, x) {
      DependenciesOfMembers(p, p.fields, name, x);
    }
    forall x ensures t == SourceSubject(domains, x) <==> IsProperty(domains, x.source, x.property, t) {
      SourceSubjectIs(domains, x, t);
    }
  }

  /** The edges along which facets travel are exactly the reads that projections declare. */
  lemma EdgesAreReads(domains: seq<Domain>, s: Subject, t: Subject)
    ensures Edge(DependencyGraph(domains), s, t) <==> DependsOn(domains, s, t)
  {
    GraphSuccessors(domains, s);
    assert Edge(DependencyGraph(domains), s, t) <==> t in ProjectionSources(domains, s);
    hide DeclaresProjection, IsDependency, IsProperty, DependencyGraph, SourceSubjects, DependenciesOf,
         LookupProjection;
    var d := s.reference.declaration;
    if t in ProjectionSources(domains, s) {
      var p := LookupProjection(domains, d).value;
      var name := s.reference.segments[0];
      assert s == Subject(ProjectionFieldKind, SemanticPath(d, [name]));
      LookupMeans(domains, d, Model("", 0, []), p);
      SourcesOfProjection(domains, d, p, name, t);
    }
    if DependsOn(domains, s, t) {
      var p, name, x :| s == Subject(ProjectionFieldKind, SemanticPath(d, [name])) &&
        DeclaresProjection(domains, d, p) && IsDependency(p, p.fields, name, x) &&
        IsProperty(domains, x.source, x.property, t);
      SourcesOfProjection(domains, d, p, name, t);
    }
  }

  /** Dependencies are visited in the order of their source's text, property and usage. */
  lemma DependenciesAreOrdered(a: Dependency, b: Dependency)
    ensures DependencyLeq(a, b) <==>
      if Render(a.source) != Render(b.source) then StringLeq(Render(a.source), Render(b.source))
      else if a.property != b.property then StringLeq(a.property, b.property)
      else StringLeq(a.usage, b.usage)
  {
    ThreeKeys(Render(a.source), a.property, a.usage, Render(b.source), b.property, b.usage);
  }

  lemma ThirdKey(a: string, b: string)
    ensures KeyLeq([a], [b]) <==> StringLeq(a, b)
  {
    StringOrder();
    assert StringLeq(a, b) || StringLeq(b, a);
    hide StringLeq;
    var x, y := [a], [b];
    assert x[1..] == [] && y[1..] == [];
    assert KeyLeq(x, y) <==> LexLeq(StringLeq, x, y);
    if a == b { assert LexLeq(StringLeq, x[1..], y[1..]); assert KeyLeq(x, y); }
    else { assert KeyLeq(x, y) <==> StringLeq(x[0], y[0]); }
  }

  lemma {:induction false} SourceSubjectAt(domains: seq<Domain>, ds: seq<Dependency>, i: nat)
    requires i < |ds|
    ensures |SourceSubjects(domains, ds)| == |ds| && SourceSubjects(domains, ds)[i] == SourceSubject(domains, ds[i])
  {
    if i > 0 { SourceSubjectAt(domains, ds[1..], i - 1); }
    else if |ds| > 1 { SourceSubjectAt(domains, ds[1..], 0); }
  }

  /** By the text of the declaration and then of the property. */
  ghost predicate ReferenceLeq(a: Reference, b: Reference) {
    if Render(a.declaration) != Render(b.declaration) then StringLeq(Render(a.declaration), Render(b.declaration))
    else StringLeq(Join(a.segments, '.'), Join(b.segments, '.'))
  }

  lemma SourcesOrdered(domains: seq<Domain>, x: Dependency, y: Dependency)
    requires DependencyLeq(x, y)
    ensures ReferenceLeq(SourceSubject(domains, x).reference, SourceSubject(domains, y).reference)
  {
    SourceText(domains, x);
    SourceText(domains, y);
    DependenciesAreOrdered(x, y);
    StringOrder();
    assert StringLeq(x.property, y.property) || StringLeq(y.property, x.property);
  }

  /** Sources are visited in that order, once for each read. */
  lemma SourcesAreOrdered(domains: seq<Domain>, d: Declaration, p: Projection, name: string)
    requires DeclaresProjection(domains, d, p)
    ensures var sources := ProjectionSources(domains, Subject(ProjectionFieldKind, SemanticPath(d, [name])));
      |sources| == |DependenciesOf(p, p.fields, name)| &&
      forall i, j :: 0 <= i < j < |sources| ==> ReferenceLeq(sources[i].reference, sources[j].reference)
  {
    LookupMeans(domains, d, Model("", 0, []), p);
    hide DeclaresProjection, LookupProjection, SourceSubject, SortBy, DependenciesOf, ReferenceLeq, DependencyLeq;
    var ds := SortBy(DependencyLeq, DependenciesOf(p, p.fields, name));
    SortedDependencies(DependenciesOf(p, p.fields, name));
    var sources := SourceSubjects(domains, ds);
    if ds != [] { SourceSubjectAt(domains, ds, 0); }
    forall i, j | 0 <= i < j < |ds| ensures ReferenceLeq(sources[i].reference, sources[j].reference) {
      SourceSubjectAt(domains, ds, i);
      SourceSubjectAt(domains, ds, j);
      SourcesOrdered(domains, ds[i], ds[j]);
    }
  }

  lemma SortedDependencies(ds: seq<Dependency>)
    ensures Sorted(DependencyLeq, SortBy(DependencyLeq, ds))
  {
    KeyOrder();
    SortBySorted(DependencyLeq, ds);
  }

  lemma SourceText(domains: seq<Domain>, x: Dependency)
    ensures SourceSubject(domains, x).reference.declaration == x.source
    ensures Join(SourceSubject(domains, x).reference.segments, '.') == x.property
  {
    SourceSubjectIs(domains, x, SourceSubject(domains, x));
  }

  // ----- subjects -----

  /** A model of the workspace, or one of its fields. */
  ghost predicate IsModelSubject(domain: string, models: seq<Model>, s: Subject) {
    exists m :: m in models && var d := Declaration(domain, m.name, m.version);
      s == Subject(DeclarationKind, SemanticPath(d, [])) ||
      exists f :: f in m.fields && s == Subject(FieldKind, SemanticPath(d, [f.name]))
  }

  ghost predicate IsProjectionSubject(domain: string, ps: seq<Projection>, s: Subject) {
    exists p :: p in ps && var d := Declaration(domain, p.name, p.version);
      s == Subject(ProjectionKind, SemanticPath(d, [])) ||
      exists f :: f in p.fields && s == Subject(ProjectionFieldKind, SemanticPath(d, [f.name]))
  }

  lemma {:induction false} FieldSubjectsAre(d: Declaration, fields: seq<Field>, s: Subject)
    ensures s in FieldSubjects(d, fields) <==>
      exists f :: f in fields && s == Subject(FieldKind, SemanticPath(d, [f.name]))
  {
    if fields != [] {
      FieldSubjectsAre(d, fields[1..], s);
      assert fields == [fields[0]] + fields[1..];
    }
  }

  lemma {:induction false} ProjectedFieldSubjectsAre(d: Declaration, fields: seq<ProjectedField>, s: Subject)
    ensures s in ProjectedFieldSubjects(d, fields) <==>
      exists f :: f in fields && s == Subject(ProjectionFieldKind, SemanticPath(d, [f.name]))
  {
    if fields != [] {
      ProjectedFieldSubjectsAre(d, fields[1..], s);
      assert fields == [fields[0]] + fields[1..];
    }
  }

  lemma {:induction false} ModelSubjectsAre(domain: string, models: seq<Model>, s: Subject)
    ensures s in ModelSubjects(domain, models) <==> IsModelSubject(domain, models, s)
  {
    if models != [] {
      var m := models[0];
      ModelSubjectsAre(domain, models[1..], s);
      FieldSubjectsAre(Declaration(domain, m.name, m.version), m.fields, s);
      assert models == [m] + models[1..];
    }
  }

  lemma {:induction false} ProjectionSubjectsAre(domain: string, ps: seq<Projection>, s: Subject)
    ensures s in ProjectionSubjects(domain, ps) <==> IsProjectionSubject(domain, ps, s)
  {
    if ps != [] {
      var p := ps[0];
      ProjectionSubjectsAre(domain, ps[1..], s);
      ProjectedFieldSubjectsAre(Declaration(domain, p.name, p.version), p.fields, s);
      assert ps == [p] + ps[1..];
    }
  }

  /** The workspace's subjects are its models, projections and their fields. */
  lemma {:induction false} WorkspaceSubjectsAre(domains: seq<Domain>, s: Subject)
    ensures s in WorkspaceSubjects(domains) <==>
      exists domain :: domain in domains &&
        (IsModelSubject(domain.name, domain.models, s) || IsProjectionSubject(domain.name, domain.projections, s))
  {
    hide IsModelSubject, IsProjectionSubject;
    if domains != [] {
      WorkspaceSubjectsAre(domains[1..], s);
      ModelSubjectsAre(domains[0].name, domains[0].models, s);
      ProjectionSubjectsAre(domains[0].name, domains[0].projections, s);
      assert domains == [domains[0]] + domains[1..];
    }
  }

  // ----- which subjects a facet may name -----

  /** A path segment without its container marker. */
  function Bare(segment: string): string {
    WithoutSuffix(WithoutSuffix(WithoutSuffix(segment, "[]"), "{}"), "{key}")
  }

  /** A segment is an identifier with at most one marker, which the lookup ignores. */
  lemma BareSegment(name: string)
    requires IsIdentifier(name)
    ensures Bare(name) == name && Bare(name + "[]") == name && Bare(name + "{}") == name && Bare(name + "{key}") == name
  {
    hide IsIdentifier;
    BareOfIdentifier(name);
    forall marker | marker in ["[]", "{}", "{key}"]
      ensures EndsWith(name + marker, marker) && (name + marker)[..|name|] == name
    {
    }
    assert (name + "{}")[|name + "{}"| - 2..] == "{}" && "{}" != "[]" by { assert "{}"[0] != "[]"[0]; }
    assert (name + "{key}")[|name + "{key}"| - 2..] == "y}" by { assert "{key}"[3..] == "y}"; }
    assert "y}"[0] != "[]"[0] && "y}"[0] != "{}"[0];
  }

  /** The first field of the name. */
  ghost predicate FirstField(fields: seq<Field>, name: string, f: Field) {
    exists i :: 0 <= i < |fields| && fields[i] == f && f.name == name &&
      forall k :: 0 <= k < i ==> fields[k].name != name
  }

  lemma {:induction false} FindFieldFirst(fields: seq<Field>, name: string, f: Field)
    ensures FindField(fields, name) == Some(f) <==> FirstField(fields, name, f)
  {
    if fields != [] && fields[0].name != name {
      FindFieldFirst(fields[1..], name, f);
      if FirstField(fields[1..], name, f) {
        var i :| 0 <= i < |fields[1..]| && fields[1..][i] == f && f.name == name &&
          forall k :: 0 <= k < i ==> fields[1..][k].name != name;
        assert fields[i + 1] == f;
        forall k | 0 <= k < i + 1 ensures fields[k].name != name {
          if k > 0 { assert fields[1..][k - 1] == fields[k]; }
        }
      }
      if FirstField(fields, name, f) {
        var i :| 0 <= i < |fields| && fields[i] == f && f.name == name &&
          forall k :: 0 <= k < i ==> fields[k].name != name;
        assert fields[1..][i - 1] == f;
      }
    }
  }

  /** The inner field that the segment names in an object type. */
  ghost predicate FieldOf(outer: Field, segment: string, inner: Field) {
    outer.nested.Some? && FirstField(outer.nested.value, Bare(segment), inner)
  }

  /** The fields met on the way down: each named by its segment, in the object type of the one before. */
  ghost predicate Descends(fields: seq<Field>, segments: seq<string>, chain: seq<Field>) {
    && |chain| == |segments| > 0
    && (forall i :: 0 <= i < |segments| ==> segments[i] !in ["[]", "{}", "{key}"])
    && FirstField(fields, Bare(segments[0]), chain[0])
    && forall i :: 0 <= i < |chain| - 1 ==> FieldOf(chain[i], segments[i + 1], chain[i + 1])
  }

  lemma DescendsStep(fields: seq<Field>, segments: seq<string>, f: Field, rest: seq<Field>)
    requires |segments| > 1
    ensures Descends(fields, segments, [f] + rest) <==>
      segments[0] !in ["[]", "{}", "{key}"] && FirstField(fields, Bare(segments[0]), f) && f.nested.Some? &&
      Descends(f.nested.value, segments[1..], rest)
  {
    hide FirstField, Bare;
    var chain := [f] + rest;
    if Descends(fields, segments, chain) {
      assert FieldOf(chain[0], segments[1], chain[1]) && chain[1] == rest[0];
      forall i | 0 <= i < |rest| - 1 ensures FieldOf(rest[i], segments[1..][i + 1], rest[i + 1]) {
        assert FieldOf(chain[i + 1], segments[i + 2], chain[i + 2]);
      }
    }
    if FirstField(fields, Bare(segments[0]), f) && f.nested.Some? && Descends(f.nested.value, segments[1..], rest) &&
        segments[0] !in ["[]", "{}", "{key}"] {
      forall i | 0 <= i < |segments| ensures segments[i] !in ["[]", "{}", "{key}"] {
        if i > 0 { assert segments[1..][i - 1] == segments[i]; }
      }
      forall i | 0 <= i < |chain| - 1 ensures FieldOf(chain[i], segments[i + 1], chain[i + 1]) {
        if i > 0 { assert FieldOf(rest[i - 1], segments[1..][i], rest[i]); }
      }
    }
  }

  /** A nested path exists exactly when fields lead down along it. */
  lemma {:induction false} FieldPathDescends(fields: seq<Field>, segments: seq<string>)
    ensures FieldPathExists(fields, segments) <==> exists chain :: Descends(fields, segments, chain)
    decreases |segments|
  {
    hide FirstField, Descends;
    if segments == [] {
      NothingDescends(fields);
    } else {
      var found := FindField(fields, Bare(segments[0]));
      forall f ensures found == Some(f) <==> FirstField(fields, Bare(segments[0]), f) {
        FindFieldFirst(fields, Bare(segments[0]), f);
      }
      if |segments| == 1 {
        OneDescends(fields, segments[0]);
        assert segments == [segments[0]];
      } else {
        if found.Some? && found.value.nested.Some? { FieldPathDescends(found.value.nested.value, segments[1..]); }
        if chain :| Descends(fields, segments, chain) {
          DescendsSplits(fields, segments, chain);
          DescendsStep(fields, segments, chain[0], chain[1..]);
        }
        if FieldPathExists(fields, segments) {
          var rest :| Descends(found.value.nested.value, segments[1..], rest);
          DescendsStep(fields, segments, found.value, rest);
        }
      }
    }
  }

  lemma NothingDescends(fields: seq<Field>)
    ensures forall chain :: !Descends(fields, [], chain)
  {
  }

  lemma DescendsSplits(fields: seq<Field>, segments: seq<string>, chain: seq<Field>)
    requires Descends(fields, segments, chain)
    ensures chain != [] && chain == [chain[0]] + chain[1..]
  {
  }

  lemma OneDescends(fields: seq<Field>, segment: string)
    ensures (exists chain :: Descends(fields, [segment], chain)) <==>
      segment !in ["[]", "{}", "{key}"] && exists f :: FirstField(fields, Bare(segment), f)
  {
    hide FirstField, Bare;
    if chain :| Descends(fields, [segment], chain) {
      assert FirstField(fields, Bare(segment), chain[0]);
      assert [segment][0] == segment;
    }
    if segment !in ["[]", "{}", "{key}"] {
      forall f | FirstField(fields, Bare(segment), f) ensures Descends(fields, [segment], [f]) { }
    }
  }

  /** What a facet may be about. */
  ghost predicate Exists(domains: seq<Domain>, s: Subject) {
    var d, segments := s.reference.declaration, s.reference.segments;
    match s.kind
    case DeclarationKind => exists m :: DeclaresModel(domains, d, m)
    case ProjectionKind => exists p :: DeclaresProjection(domains, d, p)
    case FieldKind => exists m, chain :: DeclaresModel(domains, d, m) && Descends(m.fields, segments, chain)
    case ProjectionFieldKind => |segments| == 1 && HasProjectedField(domains, d, segments[0])
  }

  /** A subject is accepted exactly when it is declared, fields down to any depth of nested objects. */
  lemma SubjectExistsMeans(domains: seq<Domain>, s: Subject)
    ensures SubjectExists(domains, s) <==> Exists(domains, s)
  {
    hide LookupModel, LookupProjection, DeclaresModel, DeclaresProjection, FieldPathExists, Descends;
    var d := s.reference.declaration;
    forall m ensures LookupModel(domains, d) == Some(m) <==> DeclaresModel(domains, d, m) {
      LookupMeans(domains, d, m, Projection("", 0, [], []));
    }
    forall p ensures LookupProjection(domains, d) == Some(p) <==> DeclaresProjection(domains, d, p) {
      LookupMeans(domains, d, Model("", 0, []), p);
    }
    if LookupModel(domains, d).Some? {
      assert DeclaresModel(domains, d, LookupModel(domains, d).value);
      FieldPathDescends(LookupModel(domains, d).value.fields, s.reference.segments);
    }
    if LookupProjection(domains, d).Some? { assert DeclaresProjection(domains, d, LookupProjection(domains, d).value); }
  }

  // ----- inheritance -----

  /** A field is enclosed by its model and by the fields it is nested in, a projected field by its projection. */
  ghost predicate Encloses(a: Subject, s: Subject) {
    var d := s.reference.declaration;
    match s.kind
    case FieldKind =>
      a == Subject(DeclarationKind, SemanticPath(d, [])) ||
      (a.kind == FieldKind && a.reference.declaration == d && a.reference.segments != [] &&
       a.reference.segments < s.reference.segments)
    case ProjectionFieldKind => a == Subject(ProjectionKind, SemanticPath(d, []))
    case _ => false
  }

  lemma AncestorsEnclose(a: Subject, s: Subject)
    ensures a in Ancestors(s) <==> Encloses(a, s)
  {
    var d, segments := s.reference.declaration, s.reference.segments;
    if s.kind == FieldKind {
      if a in Ancestors(s) {
        var i :| 0 <= i < |Ancestors(s)| && Ancestors(s)[i] == a;
        assert i > 0 ==> a == Subject(FieldKind, s.reference.(segments := segments[..i]));
      }
      if Encloses(a, s) && a.kind == FieldKind {
        var n := |a.reference.segments|;
        assert a.reference.segments == segments[..n];
        assert Ancestors(s)[n] == Subject(FieldKind, s.reference.(segments := segments[..n - 1 + 1]));
        assert a.reference == s.reference.(segments := segments[..n]);
        assert Ancestors(s)[n] == a;
      }
    }
  }

  // ----- end to end -----

  /** The facet as it appears on `s` when it comes from `t`: its source names `t` and keeps the location
      and lineage that were given for it. */
  function Arrived(s: Subject, t: Subject, e: Facet): Facet {
    e.(subject := s,
       source := Some(Source(t, if e.source.Some? then e.source.value.location else None,
                                if e.source.Some? then e.source.value.lineage else None)))
  }

  /** No facet of the identity is stated about the subject itself. */
  ghost predicate Unstated(w: Workspace, s: Subject, identity: string) {
    forall o :: o in w.facets && o.subject == s ==> o.identity != identity
  }

  lemma UnstatedMeans(w: Workspace, s: Subject, identity: string)
    ensures Unstated(w, s, identity) <==> !HasIdentity(ExplicitAt(Grouped(w.facets), s), identity)
  {
    var own := ExplicitAt(Grouped(w.facets), s);
    forall o ensures o in own <==> o in w.facets && o.subject == s { StatedMembers(w, s, o); }
    if i :| 0 <= i < |own| && own[i].identity == identity { assert own[i] in own; }
    if o :| o in w.facets && o.subject == s && o.identity == identity {
      var i :| 0 <= i < |own| && own[i] == o;
    }
  }

  lemma StatedMembers(w: Workspace, s: Subject, o: Facet)
    ensures o in ExplicitAt(Grouped(w.facets), s) <==> o in w.facets && o.subject == s
  {
    FacetsOnMembers(w.facets, s, o);
  }

  lemma ProjectedFieldIsSubject(w: Workspace, d: Declaration, p: Projection, name: string)
    requires DeclaresProjection(w.domains, d, p) && exists f :: f in p.fields && f.name == name
    ensures Subject(ProjectionFieldKind, SemanticPath(d, [name])) in VisitOrder(w)
  {
    var s := Subject(ProjectionFieldKind, SemanticPath(d, [name]));
    LookupMeans(w.domains, d, Model("", 0, []), p);
    LookedUpProjectionSubjects(w.domains, d);
    VisitOrderMembers(w, s);
  }

  /** In an accepted workspace every known projecting facet stated about a property is listed on each
      projection field that reads it and does not state one of that identity itself. */
  lemma ReadFacetsAreListed(w: Workspace, s: Subject, t: Subject, e: Facet)
    requires Resolvable(w) && DependsOn(w.domains, s, t)
    requires e in w.facets && e.subject == t && e.known && e.propagation == Project && Unstated(w, s, e.identity)
    ensures Arrived(s, t, e) in Normalized(w)
  {
    var g, explicit := DependencyGraph(w.domains), Grouped(w.facets);
    EdgesAreReads(w.domains, s, t);
    StatedMembers(w, t, e);
    UnstatedMeans(w, s, e.identity);
    hide DependencyGraph, Grouped, Normalized, VisitOrder, Unstated;
    var walk := [s, t];
    assert Carries(g, explicit, walk, e);
    assert walk[0] == s && walk[1] == t && Arrived(s, t, e) == Derive(s, t, e);
    assert Attached(g, explicit, s, Arrived(s, t, e));
    var p, name, x :| s == Subject(ProjectionFieldKind, SemanticPath(s.reference.declaration, [name])) &&
      DeclaresProjection(w.domains, s.reference.declaration, p) && IsDependency(p, p.fields, name, x) &&
      IsProperty(w.domains, x.source, x.property, t);
    ProjectedFieldIsSubject(w, s.reference.declaration, p, name);
    NormalizedMeaning(w, Arrived(s, t, e));
  }

  /** A projection field that maps a model field directly lists what is stated about that field. */
  lemma DirectFieldCarries(
    w: Workspace, d: Declaration, p: Projection, f: ProjectedField, ref: PropertyRef, source: Declaration, e: Facet)
    requires Resolvable(w) && DeclaresProjection(w.domains, d, p) && f in p.fields
    requires f.mapping == Direct(ref) && Binds(p.aliases, ref.alias, source)
    requires HasModelField(w.domains, source, ref.property) && IsIdentifier(ref.property)
    requires e in w.facets && e.subject == Subject(FieldKind, SemanticPath(source, [ref.property]))
    requires e.known && e.propagation == Project
    requires Unstated(w, Subject(ProjectionFieldKind, SemanticPath(d, [f.name])), e.identity)
    ensures Arrived(Subject(ProjectionFieldKind, SemanticPath(d, [f.name])), e.subject, e) in Normalized(w)
  {
    hide Binds, DeclaresProjection, DeclaresModel, Normalized, Resolvable, Unstated;
    var s, x := Subject(ProjectionFieldKind, SemanticPath(d, [f.name])), Dependency(source, ref.property, "direct");
    assert Refers(f.mapping, ref, x.usage);
    assert IsDependency(p, p.fields, f.name, x);
    assert IsProperty(w.domains, source, ref.property, e.subject);
    assert DependsOn(w.domains, s, e.subject);
    ReadFacetsAreListed(w, s, e.subject, e);
  }

  /** Every known inheriting facet stated about an enclosing subject is listed on the subject, unless
      that states one of the identity itself. */
  lemma EnclosingFacetsAreListed(w: Workspace, s: Subject, a: Subject, e: Facet)
    requires Resolvable(w) && s in VisitOrder(w) && Encloses(a, s)
    requires e in w.facets && e.subject == a && e.known && e.propagation == Inherit && Unstated(w, s, e.identity)
    ensures Arrived(s, a, e) in Normalized(w)
  {
    var g, explicit := DependencyGraph(w.domains), Grouped(w.facets);
    AncestorsEnclose(a, s);
    StatedMembers(w, a, e);
    UnstatedMeans(w, s, e.identity);
    assert Arrived(s, a, e) == Derive(s, a, e);
    hide DependencyGraph, Grouped, Normalized, VisitOrder, Unstated, Ancestors, Encloses;
    assert IsInherited(explicit, s, Arrived(s, a, e));
    assert Attached(g, explicit, s, Arrived(s, a, e));
    NormalizedMeaning(w, Arrived(s, a, e));
  }

  // ----- the facets of one subject -----

  lemma {:induction false} FacetsOnConcat(a: seq<Facet>, b: seq<Facet>, s: Subject)
    ensures FacetsOn(a + b, s) == FacetsOn(a, s) + FacetsOn(b, s)
  {
    if b == [] {
      assert a + b == a;
    } else {
      var n := |b| - 1;
      FacetsOnConcat(a, b[..n], s);
      assert (a + b)[..|a + b| - 1] == a + b[..n] && (a + b)[|a + b| - 1] == b[n];
    }
  }

  lemma FacetsOnHead(x: Facet, rest: seq<Facet>, s: Subject)
    ensures FacetsOn([x] + rest, s) == if x.subject == s then [x] + FacetsOn(rest, s) else FacetsOn(rest, s)
  {
    FacetsOnConcat([x], rest, s);
    assert [x][..0] == [] && FacetsOn([x], s) == if x.subject == s then [] + [x] else [];
    assert [] + FacetsOn(rest, s) == FacetsOn(rest, s);
  }

  lemma {:induction false} FacetsOnInsert(x: Facet, r: seq<Facet>, s: Subject)
    requires Sorted(FacetLeq, r) && Preorder(FacetLeq)
    ensures FacetsOn(Insert(FacetLeq, x, r), s) ==
      if x.subject == s then Insert(FacetLeq, x, FacetsOn(r, s)) else FacetsOn(r, s)
  {
    hide FacetLeq, FacetsOn, Sorted, Preorder;
    FacetsOnHead(x, r, s);
    if r == [] {
      assert [x] + [] == [x];
      FacetsOnNone(s);
    } else if FacetLeq(x, r[0]) {
      InsertBelow(x, r, s);
    } else {
      assert r == [r[0]] + r[1..];
      SortedTail(r);
      FacetsOnInsert(x, r[1..], s);
      FacetsOnHead(r[0], r[1..], s);
      FacetsOnHead(r[0], Insert(FacetLeq, x, r[1..]), s);
      if r[0].subject == s { InsertAbove(x, r[0], FacetsOn(r[1..], s)); }
    }
  }

  lemma FacetsOnNone(s: Subject)
    ensures FacetsOn([], s) == []
  {
  }

  lemma SortedTail(r: seq<Facet>)
    requires Sorted(FacetLeq, r) && r != []
    ensures Sorted(FacetLeq, r[1..])
  {
  }

  lemma InsertAbove(x: Facet, y: Facet, rest: seq<Facet>)
    requires !FacetLeq(x, y)
    ensures Insert(FacetLeq, x, [y] + rest) == [y] + Insert(FacetLeq, x, rest)
  {
    assert ([y] + rest)[1..] == rest;
  }

  lemma InsertBelow(x: Facet, r: seq<Facet>, s: Subject)
    requires Sorted(FacetLeq, r) && Preorder(FacetLeq) && r != [] && FacetLeq(x, r[0])
    ensures Insert(FacetLeq, x, FacetsOn(r, s)) == [x] + FacetsOn(r, s)
  {
    hide FacetLeq;
    var kept := FacetsOn(r, s);
    if kept != [] {
      FacetsOnMembers(r, s, kept[0]);
      var i :| 0 <= i < |r| && r[i] == kept[0];
      assert i > 0 ==> FacetLeq(r[0], r[i]);
    }
  }

  /** Sorting keeps the facets of one subject in the order they would be sorted in alone. */
  lemma {:induction false} FacetsOnSorted(fs: seq<Facet>, s: Subject)
    requires Preorder(FacetLeq)
    ensures FacetsOn(SortBy(FacetLeq, fs), s) == SortBy(FacetLeq, FacetsOn(fs, s))
  {
    hide FacetLeq, Insert;
    if fs != [] {
      FacetsOnSorted(fs[1..], s);
      SortBySorted(FacetLeq, fs[1..]);
      FacetsOnInsert(fs[0], SortBy(FacetLeq, fs[1..]), s);
      FacetsOnHead(fs[0], fs[1..], s);
      assert fs == [fs[0]] + fs[1..];
      assert ([fs[0]] + FacetsOn(fs[1..], s))[1..] == FacetsOn(fs[1..], s);
    }
  }

  lemma FacetsNameTheirSubject(w: Workspace, s: Subject, f: Facet)
    requires !ReachesCycle(DependencyGraph(w.domains), s)
    ensures f in Facets(DependencyGraph(w.domains), Grouped(w.facets), s) ==> f.subject == s
  {
    var g, explicit := DependencyGraph(w.domains), Grouped(w.facets);
    FacetsAreShadowedReachability(g, explicit, s, {}, f);
    forall e | e in ExplicitAt(explicit, s) ensures e.subject == s { StatedMembers(w, s, e); }
    if Attached(g, explicit, s, f) { AttachedSubject(g, explicit, s, f); }
  }

  lemma {:induction false} AllOrNone(fs: seq<Facet>, t: Subject, s: Subject)
    requires forall f :: f in fs ==> f.subject == t
    ensures FacetsOn(fs, s) == if s == t then fs else []
  {
    if fs != [] {
      AllOrNone(fs[..|fs| - 1], t, s);
      assert fs == fs[..|fs| - 1] + [fs[|fs| - 1]];
    }
  }

  lemma {:induction false} OneSubjectOfAll(w: Workspace, subjects: seq<Subject>, s: Subject)
    requires NoCycleFrom(DependencyGraph(w.domains), subjects) && NoDuplicates(subjects)
    ensures FacetsOn(FacetsOfAll(DependencyGraph(w.domains), Grouped(w.facets), subjects), s) ==
      if s in subjects then Facets(DependencyGraph(w.domains), Grouped(w.facets), s) else []
  {
    hide Facets, DependencyGraph, Grouped;
    var g, explicit := DependencyGraph(w.domains), Grouped(w.facets);
    if subjects != [] {
      var n := |subjects| - 1;
      SplitLast(subjects);
      OneSubjectOfAll(w, subjects[..n], s);
      forall f | f in Facets(g, explicit, subjects[n]) ensures f.subject == subjects[n] {
        FacetsNameTheirSubject(w, subjects[n], f);
      }
      AllOrNone(Facets(g, explicit, subjects[n]), subjects[n], s);
      FacetsOnConcat(FacetsOfAll(g, explicit, subjects[..n]), Facets(g, explicit, subjects[n]), s);
      if s == subjects[n] { assert s !in subjects[..n]; }
    }
  }

  /** The normalised workspace is sorted, and what it lists for a subject is exactly what resolving that
      subject gives, each subject once: nothing for a subject that is neither declared nor stated about. */
  lemma FacetsForSubject(w: Workspace, s: Subject)
    requires Resolvable(w)
    ensures Sorted(FacetLeq, Normalized(w))
    ensures FacetsOn(Normalized(w), s) ==
      if s in VisitOrder(w) then Facets(DependencyGraph(w.domains), Grouped(w.facets), s) else []
  {
    hide DependencyGraph, Grouped, FacetLeq, Facets;
    var g, explicit := DependencyGraph(w.domains), Grouped(w.facets);
    FacetOrder();
    VisitedOnce(w);
    var all := FacetsOfAll(g, explicit, VisitOrder(w));
    SortBySorted(FacetLeq, all);
    FacetsOnSorted(all, s);
    OneSubjectOfAll(w, VisitOrder(w), s);
    if s in VisitOrder(w) {
      FacetsAreSorted(g, explicit, s);
      SortByFixpoint(FacetLeq, Facets(g, explicit, s));
    }
  }

  lemma VisitedOnce(w: Workspace)
    ensures NoDuplicates(VisitOrder(w))
  {
    SortByNoDuplicates(SubjectLeq, Distinct(WorkspaceSubjects(w.domains) + FacetSubjects(w.facets)));
  }

  lemma FacetsAreSorted(g: Graph<Subject>, explicit: Explicit, s: Subject)
    requires !ReachesCycle(g, s)
    ensures Sorted(FacetLeq, Facets(g, explicit, s))
  {
    FacetOrder();
    forall c | c in Successors(g, s) ensures !ReachesCycle(g, c) {
      ReachesEdge(g, s, c);
      if ReachesCycle(g, c) { ReachesCycleStep(g, s, c); }
    }
    FacetsUnfold(g, explicit, s);
    var own := ExplicitAt(explicit, s);
    SortBySorted(FacetLeq,
      own + Unshadowed(own, Inherited(explicit, s, Ancestors(s))) +
      Unshadowed(own, Projected(g, explicit, s, Successors(g, s))));
  }

  /** Facets are sorted by subject, identity and the subject they come from, as texts. */
  lemma FacetsAreOrdered(a: Facet, b: Facet)
    ensures FacetLeq(a, b) <==>
      if Canonical(a.subject) != Canonical(b.subject) then StringLeq(Canonical(a.subject), Canonical(b.subject))
      else if a.identity != b.identity then StringLeq(a.identity, b.identity)
      else a.source.None? ||
           (b.source.Some? && StringLeq(Canonical(a.source.value.subject), Canonical(b.source.value.subject)))
  {
    hide Canonical;
    var x, y := SortKey(a), SortKey(b);
    ThreeKeys(x[0], x[1], x[2], y[0], y[1], y[2]);
    assert x == [x[0], x[1], x[2]] && y == [y[0], y[1], y[2]];
    if b.source.None? && a.source.Some? { CanonicalNotEmpty(a.source.value.subject); }
  }

  lemma CanonicalNotEmpty(s: Subject)
    ensures Canonical(s) != "" && !StringLeq(Canonical(s), "")
  {
    assert KindText(s.kind) != "";
  }

  lemma ThreeKeys(a: string, b: string, c: string, x: string, y: string, z: string)
    ensures KeyLeq([a, b, c], [x, y, z]) <==>
      if a != x then StringLeq(a, x) else if b != y then StringLeq(b, y) else StringLeq(c, z)
  {
    ThirdKey(c, z);
    hide StringLeq;
    var p, q := [b, c], [y, z];
    assert p[1..] == [c] && q[1..] == [z];
    assert KeyLeq(p, q) <==> if b == y then KeyLeq([c], [z]) else StringLeq(p[0], q[0]);
    var u, v := [a] + p, [x] + q;
    assert u[1..] == p && v[1..] == q;
    assert u == [a, b, c] && v == [x, y, z];
  }

  /** The four kinds of subject as they are written. */
  lemma SubjectTexts(d: Declaration, segments: seq<string>)
    requires segments != []
    ensures Canonical(Subject(DeclarationKind, SemanticPath(d, []))) == "declaration:" + Render(d)
    ensures Canonical(Subject(ProjectionKind, SemanticPath(d, []))) == "projection:" + Render(d)
    ensures Canonical(Subject(FieldKind, SemanticPath(d, segments))) ==
      "field:" + (Render(d) + "#" + Join(segments, '.'))
    ensures Canonical(Subject(ProjectionFieldKind, SemanticPath(d, segments))) ==
      "projection_field:" + (Render(d) + "#" + Join(segments, '.'))
  {
    hide Render, Join;
    assert "declaration" + ":" == "declaration:" && "projection" + ":" == "projection:";
    assert "field" + ":" == "field:" && "projection_field" + ":" == "projection_field:";
  }
}
