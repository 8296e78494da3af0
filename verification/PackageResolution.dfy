/** Resolving local package candidates into one closure (cli/src/modelable/package_manifest.py). */
module PackageResolution {
  import opened Text
  import opened Ordering
  import opened Graphs
  import opened PackageVersions

  datatype Identity = Identity(name: string, version: Version)

  datatype Dependency = Dependency(name: string, constraint: Constraint)

  /** `content` is what a manifest carries besides identity and dependencies. */
  datatype Manifest = Manifest(identity: Identity, content: string, dependencies: seq<Dependency>)

  datatype Resolution = Resolution(manifests: seq<Manifest>, dependencies: map<Identity, seq<Identity>>)

  datatype Failure =
    | DuplicateIdentity(name: string) | Cycle(at: Identity) | Unsatisfied(dependency: Dependency, required: Identity)

  function IdentityText(i: Identity): string { i.name + "@" + VersionText(i.version) }

  predicate IdentityLeq(a: Identity, b: Identity) { StringLeq(IdentityText(a), IdentityText(b)) }

  predicate NewerFirst(a: Manifest, b: Manifest) { VersionLeq(b.identity.version, a.identity.version) }

  /** The order of the result: by name, then by version. */
  predicate ManifestLeq(a: Manifest, b: Manifest) {
    if a.identity.name == b.identity.name then VersionLeq(a.identity.version, b.identity.version)
    else StringLeq(a.identity.name, b.identity.name)
  }

  function Named(ms: seq<Manifest>, name: string): seq<Manifest> {
    if ms == [] then []
    else
      var rest := Named(ms[..|ms| - 1], name);
      if ms[|ms| - 1].identity.name == name then rest + [ms[|ms| - 1]] else rest
  }

  lemma {:induction false} NamedMembers(ms: seq<Manifest>, name: string, m: Manifest)
    ensures m in Named(ms, name) <==> m in ms && m.identity.name == name
    ensures multiset(Named(ms, name))[m] == if m.identity.name == name then multiset(ms)[m] else 0
  {
    if ms != [] {
      NamedMembers(ms[..|ms| - 1], name, m);
      SplitLast(ms);
    }
  }

  function Candidates(ms: seq<Manifest>, name: string): seq<Manifest> {
    SortBy(NewerFirst, Named(ms, name))
  }

  lemma CandidatesMembers(ms: seq<Manifest>, name: string, m: Manifest)
    ensures m in Candidates(ms, name) <==> m in ms && m.identity.name == name
  {
    NamedMembers(ms, name, m);
  }

  function FirstMatch(options: seq<Manifest>, c: Constraint): (r: Option<Manifest>)
    ensures r.Some? ==> r.value in options && Satisfies(r.value.identity.version, c)
    ensures r.None? ==> forall i :: 0 <= i < |options| ==> !Satisfies(options[i].identity.version, c)
  {
    if options == [] then None
    else if Satisfies(options[0].identity.version, c) then Some(options[0]) else FirstMatch(options[1..], c)
  }

  /** The package a dependency resolves to. */
  function Match(ms: seq<Manifest>, d: Dependency): Option<Manifest> {
    FirstMatch(Candidates(ms, d.name), d.constraint)
  }

  /** A candidate of the dependency's name that satisfies its constraint. */
  ghost predicate Admitted(ms: seq<Manifest>, d: Dependency, m: Manifest) {
    m in ms && m.identity.name == d.name && Satisfies(m.identity.version, d.constraint)
  }

  /** The newest of them, by the version key. */
  ghost predicate IsNewestMatch(ms: seq<Manifest>, d: Dependency, m: Manifest) {
    Admitted(ms, d, m) && forall o :: Admitted(ms, d, o) ==> VersionLeq(o.identity.version, m.identity.version)
  }

  lemma NewestFirstOrder()
    ensures Preorder(NewerFirst)
  {
    VersionOrder();
  }

  lemma {:induction false} FirstMatchIsNewest(options: seq<Manifest>, c: Constraint)
    requires Sorted(NewerFirst, options)
    ensures FirstMatch(options, c).Some? ==>
      forall o :: o in options && Satisfies(o.identity.version, c) ==>
        VersionLeq(o.identity.version, FirstMatch(options, c).value.identity.version)
  {
    if options != [] {
      if Satisfies(options[0].identity.version, c) {
        VersionOrder();
        forall o | o in options ensures NewerFirst(options[0], o) {
          var i :| 0 <= i < |options| && options[i] == o;
          if i > 0 { assert NewerFirst(options[0], options[i]); }
        }
      } else {
        FirstMatchIsNewest(options[1..], c);
        assert options == [options[0]] + options[1..];
      }
    }
  }

  /** A dependency resolves to the newest satisfying candidate, and fails only when there is none. */
  lemma MatchIsNewest(ms: seq<Manifest>, d: Dependency)
    ensures Match(ms, d).Some? ==> IsNewestMatch(ms, d, Match(ms, d).value)
    ensures Match(ms, d).None? ==>
      forall o :: o in ms && o.identity.name == d.name ==> !Satisfies(o.identity.version, d.constraint)
  {
    var options := Candidates(ms, d.name);
    NewestFirstOrder();
    SortBySorted(NewerFirst, Named(ms, d.name));
    FirstMatchIsNewest(options, d.constraint);
    forall o | o in ms && o.identity.name == d.name ensures o in options { CandidatesMembers(ms, d.name, o); }
    if Match(ms, d).Some? { CandidatesMembers(ms, d.name, Match(ms, d).value); }
  }

  /** A dependency on anything resolves exactly when there is a candidate of the name, and then to the
      newest of them all. */
  lemma AnythingResolvesToNewest(ms: seq<Manifest>, name: string)
    ensures var found := Match(ms, Dependency(name, Anything));
      && (found.Some? <==> exists m :: m in ms && m.identity.name == name)
      && (found.Some? ==>
            found.value in ms && found.value.identity.name == name &&
            forall o :: o in ms && o.identity.name == name ==>
              VersionLeq(o.identity.version, found.value.identity.version))
  {
    hide Match, Satisfies;
    MatchIsNewest(ms, Dependency(name, Anything));
    forall v: Version ensures Satisfies(v, Anything) { AnythingMatchesAll(v); }
  }

  /** The greatest core among the candidates let through is given as a release and as a pre-release. */
  ghost predicate GreatestCoreTwice(ms: seq<Manifest>, d: Dependency) {
    exists o, p ::
      Admitted(ms, d, o) && Admitted(ms, d, p) && o.identity.version.core == p.identity.version.core &&
      o.identity.version.prerelease == [] && p.identity.version.prerelease != [] &&
      forall q :: Admitted(ms, d, q) ==> CoreLeq(q.identity.version.core, o.identity.version.core)
  }

  /** What a dependency resolves to has the highest precedence among the candidates it lets through
      exactly when their greatest core is not given both as a release and as a pre-release. */
  lemma MatchIsNewestByPrecedenceExactly(ms: seq<Manifest>, d: Dependency)
    requires Match(ms, d).Some?
    ensures (forall o :: Admitted(ms, d, o) ==> SemVerLeq(o.identity.version, Match(ms, d).value.identity.version)) <==>
      !GreatestCoreTwice(ms, d)
  {
    hide Match, Satisfies;
    MatchIsNewest(ms, d);
    var m := Match(ms, d).value;
    forall o | Admitted(ms, d, o)
      ensures VersionLeq(o.identity.version, m.identity.version) &&
        CoreLeq(o.identity.version.core, m.identity.version.core)
    {
    }
    if o :| Admitted(ms, d, o) && !SemVerLeq(o.identity.version, m.identity.version) {
      KeyOrdersByPrecedenceExactly(o.identity.version, m.identity.version);
      assert Admitted(ms, d, m);
    }
  }

  /** With `1.0.0` and `1.0.0-alpha` at hand, `>=1.0.0` resolves to the pre-release. */
  lemma MatchPrefersPrerelease()
    ensures
      var release := Manifest(Identity("p", Version(Core(1, 0, 0), [])), "", []);
      var alpha := Manifest(Identity("p", Version(Core(1, 0, 0), [Word("alpha")])), "", []);
      var d := Dependency("p", AllOf([Part(GreaterOrEqual, [1, 0, 0])]));
      && Match([release, alpha], d) == Some(alpha) && GreatestCoreTwice([release, alpha], d)
      && Admitted([release, alpha], d, release) && !SemVerLeq(release.identity.version, alpha.identity.version)
  {
    hide Match;
    var release := Manifest(Identity("p", Version(Core(1, 0, 0), [])), "", []);
    var alpha := Manifest(Identity("p", Version(Core(1, 0, 0), [Word("alpha")])), "", []);
    var ms, d := [release, alpha], Dependency("p", AllOf([Part(GreaterOrEqual, [1, 0, 0])]));
    PrereleaseSortsAboveRelease();
    assert Admitted(ms, d, release) && Admitted(ms, d, alpha);
    MatchIsNewest(ms, d);
    MatchIsNewestByPrecedenceExactly(ms, d);
  }

  function Matched(ms: seq<Manifest>, ds: seq<Dependency>): seq<Manifest> {
    if ds == [] then []
    else
      var rest := Matched(ms, ds[..|ds| - 1]);
      match Match(ms, ds[|ds| - 1])
      case None => rest
      case Some(m) => rest + [m]
  }

  lemma {:induction false} MatchedMembers(ms: seq<Manifest>, ds: seq<Dependency>, m: Manifest)
    ensures m in Matched(ms, ds) <==> exists d :: d in ds && Match(ms, d) == Some(m)
  {
    if ds != [] {
      MatchedMembers(ms, ds[..|ds| - 1], m);
      SplitLast(ds);
    }
  }

  /** An edge from each candidate to what each of its dependencies resolves to. */
  function DependencyGraph(ms: seq<Manifest>): Graph<Manifest> {
    map m | m in ms :: Matched(ms, m.dependencies)
  }

  ghost predicate IsUnsatisfied(ms: seq<Manifest>, m: Manifest) {
    exists d :: d in m.dependencies && Match(ms, d).None?
  }

  ghost predicate ReachesUnsatisfied(ms: seq<Manifest>, m: Manifest) {
    exists x :: Reaches(DependencyGraph(ms), m, x) && IsUnsatisfied(ms, x)
  }

  ghost predicate UniqueIdentities(ms: seq<Manifest>) {
    forall i, j :: 0 <= i < j < |ms| ==> ms[i].identity != ms[j].identity
  }

  lemma SameIdentity(ms: seq<Manifest>, a: Manifest, b: Manifest)
    requires UniqueIdentities(ms) && a in ms && b in ms && a.identity == b.identity
    ensures a == b
  {
    var i :| 0 <= i < |ms| && ms[i] == a;
    var j :| 0 <= j < |ms| && ms[j] == b;
    assert !(i < j) && !(j < i);
  }

  function Names(ms: seq<Manifest>): (r: seq<string>)
    ensures |r| == |ms| && forall i :: 0 <= i < |ms| ==> r[i] == ms[i].identity.name
  {
    seq(|ms|, i requires 0 <= i < |ms| => ms[i].identity.name)
  }

  /** The newest version of a name. */
  ghost predicate IsRoot(ms: seq<Manifest>, m: Manifest) {
    m in ms && Candidates(ms, m.identity.name) != [] && m == Candidates(ms, m.identity.name)[0]
  }

  /** The closure: everything the newest versions reach. */
  ghost predicate Selected(ms: seq<Manifest>, m: Manifest) {
    exists root :: IsRoot(ms, root) && Reaches(DependencyGraph(ms), root, m)
  }

  ghost predicate Resolvable(ms: seq<Manifest>) {
    forall root :: IsRoot(ms, root) ==> !ReachesCycle(DependencyGraph(ms), root) && !ReachesUnsatisfied(ms, root)
  }

  function Identities(ms: seq<Manifest>): (r: seq<Identity>)
    ensures |r| == |ms| && forall i :: 0 <= i < |ms| ==> r[i] == ms[i].identity
  {
    seq(|ms|, i requires 0 <= i < |ms| => ms[i].identity)
  }

  function DependencyList(ms: seq<Manifest>, m: Manifest): seq<Identity> {
    SortBy(IdentityLeq, Identities(Matched(ms, m.dependencies)))
  }

  /** What a resolution of `ms` is, without saying how it is found. */
  ghost predicate IsResolution(ms: seq<Manifest>, r: Resolution) {
    && (forall m :: m in r.manifests <==> Selected(ms, m))
    && NoDuplicates(r.manifests) && Sorted(ManifestLeq, r.manifests)
    && (forall id :: id in r.dependencies <==> exists m :: m in r.manifests && m.identity == id)
    && (forall m :: m in r.manifests ==>
          m.identity in r.dependencies && r.dependencies[m.identity] == DependencyList(ms, m))
  }

  // ----- the depth-first search -----

  /** The search's finished part: manifests in finishing order, with their recorded selections. */
  ghost predicate Finished(
    ms: seq<Manifest>, order: seq<Manifest>,
    selected: map<Identity, Manifest>, dependencyMap: map<Identity, seq<Identity>>)
  {
    && FinishingOrder(DependencyGraph(ms), order) && NoDuplicates(order)
    && (forall m :: m in order ==> m in ms && !IsUnsatisfied(ms, m))
    && selected.Keys == (set m | m in order :: m.identity)
    && (forall m :: m in order ==> selected[m.identity] == m)
    && dependencyMap.Keys == selected.Keys
    && (forall m :: m in order ==> dependencyMap[m.identity] == DependencyList(ms, m))
  }

  lemma FinishingOne(ms: seq<Manifest>, order: seq<Manifest>, m: Manifest)
    requires FinishingOrder(DependencyGraph(ms), order) && m in ms
    requires forall d :: d in m.dependencies ==> Match(ms, d).Some? && Match(ms, d).value in order
    ensures FinishingOrder(DependencyGraph(ms), order + [m]) && !IsUnsatisfied(ms, m)
  {
    forall b | Edge(DependencyGraph(ms), m, b) ensures b in order { MatchedMembers(ms, m.dependencies, b); }
    FinishingOrderExtends(DependencyGraph(ms), order, m);
  }

  lemma FinishedOneMore(
    ms: seq<Manifest>, order: seq<Manifest>,
    selected: map<Identity, Manifest>, dependencyMap: map<Identity, seq<Identity>>, m: Manifest)
    requires UniqueIdentities(ms) && Finished(ms, order, selected, dependencyMap) && m in ms && m !in order
    requires forall d :: d in m.dependencies ==> Match(ms, d).Some? && Match(ms, d).value in order
    ensures Finished(ms, order + [m], selected[m.identity := m], dependencyMap[m.identity := DependencyList(ms, m)])
  {
    hide FinishingOrder, IsUnsatisfied, DependencyList;
    FinishingOne(ms, order, m);
    var longer := order + [m];
    assert forall x :: x in longer <==> x in order || x == m;
    forall x | x in longer && x.identity == m.identity ensures x == m { SameIdentity(ms, x, m); }
    assert (set x | x in longer :: x.identity) == (set x | x in order :: x.identity) + {m.identity};
  }

  lemma FinishedLookup(
    ms: seq<Manifest>, order: seq<Manifest>,
    selected: map<Identity, Manifest>, dependencyMap: map<Identity, seq<Identity>>, m: Manifest)
    requires UniqueIdentities(ms) && Finished(ms, order, selected, dependencyMap) && m in ms && m.identity in selected
    ensures m in order
  {
    var o :| o in order && o.identity == m.identity;
    SameIdentity(ms, o, m);
  }

  lemma SelectedWhenFinished(
    ms: seq<Manifest>, order: seq<Manifest>,
    selected: map<Identity, Manifest>, dependencyMap: map<Identity, seq<Identity>>, m: Manifest)
    requires Finished(ms, order, selected, dependencyMap) && m.identity !in selected
    ensures m !in order
  {
  }

  /** The search's open part: unfinished manifests, known by their identities. */
  ghost predicate OnPath(ms: seq<Manifest>, order: seq<Manifest>, path: set<Manifest>, visiting: set<Identity>) {
    && (forall m :: m in path ==> m in ms && m !in order)
    && visiting == (set m | m in path :: m.identity)
  }

  lemma PathLookup(ms: seq<Manifest>, order: seq<Manifest>, path: set<Manifest>, visiting: set<Identity>, m: Manifest)
    requires UniqueIdentities(ms) && OnPath(ms, order, path, visiting) && m in ms
    ensures m.identity in visiting <==> m in path
  {
    if m.identity in visiting {
      var o :| o in path && o.identity == m.identity;
      SameIdentity(ms, o, m);
    }
  }

  lemma PathEnter(ms: seq<Manifest>, order: seq<Manifest>, path: set<Manifest>, visiting: set<Identity>, m: Manifest)
    requires OnPath(ms, order, path, visiting) && m in ms && m !in order
    ensures OnPath(ms, order, path + {m}, visiting + {m.identity})
  {
  }

  lemma PathLeave(ms: seq<Manifest>, order: seq<Manifest>, path: set<Manifest>, visiting: set<Identity>, m: Manifest)
    requires UniqueIdentities(ms) && OnPath(ms, order, path + {m}, visiting) && m in ms && m !in path
    ensures m !in order && path + {m} - {m} == path
    ensures OnPath(ms, order + [m], path, visiting - {m.identity})
  {
    forall x | x in path ensures x.identity != m.identity && x !in order + [m] {
      if x.identity == m.identity { SameIdentity(ms, x, m); }
      assert x in path + {m};
    }
    assert m in path + {m};
    assert (set x | x in path + {m} :: x.identity) - {m.identity} == (set x | x in path :: x.identity);
  }

  /** The closure `resolve_package_manifests` builds around `selected` and `visiting`. */
  class Resolver {
    const manifests: seq<Manifest>
    const candidates: map<string, seq<Manifest>>
    var selected: map<Identity, Manifest>
    var order: seq<Manifest> // the manifests in `selected`, in the order they were put there
    var dependencyMap: map<Identity, seq<Identity>>
    var visiting: set<Identity>
    ghost var path: set<Manifest>

    ghost predicate Grouped() {
      && UniqueIdentities(manifests)
      && (forall name :: name in candidates <==> name in Names(manifests))
      && forall name :: name in candidates ==> candidates[name] == Candidates(manifests, name)
    }

    /** `path` are the manifests being visited. */
    ghost predicate Valid()
      reads this
    {
      && Grouped()
      && Finished(manifests, order, selected, dependencyMap)
      && OnPath(manifests, order, path, visiting)
    }

    constructor (manifests: seq<Manifest>, candidates: map<string, seq<Manifest>>)
      requires UniqueIdentities(manifests)
      requires forall name :: name in candidates <==> name in Names(manifests)
      requires forall name :: name in candidates ==> candidates[name] == Candidates(manifests, name)
      ensures this.manifests == manifests && this.candidates == candidates
      ensures Valid() && order == [] && path == {}
    {
      this.manifests := manifests;
      this.candidates := candidates;
      selected, dependencyMap, visiting := map[], map[], {};
      order, path := [], {};
    }

    method Lookup(d: Dependency) returns (r: Option<Manifest>)
      requires Grouped()
      ensures r == Match(manifests, d)
    {
      var options := if d.name in candidates then candidates[d.name] else [];
      if d.name !in candidates {
        if Candidates(manifests, d.name) != [] {
          CandidatesMembers(manifests, d.name, Candidates(manifests, d.name)[0]);
          NameListed(manifests, Candidates(manifests, d.name)[0]);
          assert false;
        }
      }
      r := FirstMatch(options, d.constraint);
    }

    /** Selects everything `m` reaches, in finishing order, or reports a reachable obstacle. */
    method Visit(m: Manifest) returns (r: Result<(), Failure>)
      requires Valid() && m in manifests
      requires forall x :: x in path ==> StrictlyReaches(DependencyGraph(manifests), x, m)
      modifies this
      ensures r.Ok? ==> Valid() && path == old(path) && m in order
      ensures r.Ok? ==> forall x :: x in old(order) ==> x in order
      ensures r.Ok? ==> forall x :: x in order ==> x in old(order) || Reaches(DependencyGraph(manifests), m, x)
      ensures r.Err? ==> !r.error.DuplicateIdentity?
      ensures r.Err? ==> ReachesCycle(DependencyGraph(manifests), m) || ReachesUnsatisfied(manifests, m)
      decreases |(set x | x in manifests) - path|, 1
    {
      hide Finished, OnPath, Reaches, ReachesCycle, ReachesUnsatisfied, StrictlyReaches, UniqueIdentities,
           DependencyGraph, Matched, Edge, SortBy, IdentityLeq, Names, Candidates;
      ghost var g := DependencyGraph(manifests);
      var identity := m.identity;
      if identity in selected {
        FinishedLookup(manifests, order, selected, dependencyMap, m);
        return Ok(());
      }
      SelectedWhenFinished(manifests, order, selected, dependencyMap, m);
      PathLookup(manifests, order, path, visiting, m);
      if identity in visiting {
        StrictlyReachesSelf(g, m);
        return Err(Cycle(identity));
      }
      PathEnter(manifests, order, path, visiting, m);
      PathShrinks(manifests, path, m);
      visiting := visiting + {identity};
      path := path + {m};
      forall x, d | x in path && Edge(g, m, d) ensures StrictlyReaches(g, x, d) { StrictlyReachesNext(g, x, m, d); }
      ReachesSelf(g, m);
      var resolved := VisitDependencies(m);
      if resolved.Err? {
        return Err(resolved.error);
      }
      PathLeave(manifests, order, old(path), visiting, m);
      FinishedOneMore(manifests, order, selected, dependencyMap, m);
      visiting := visiting - {identity};
      path := path - {m};
      order := order + [m];
      selected := selected[identity := m];
      dependencyMap := dependencyMap[identity := SortBy(IdentityLeq, resolved.value)];
      r := Ok(());
    }

    /** The loop over the dependencies of `m`. */
    method VisitDependencies(m: Manifest) returns (r: Result<seq<Identity>, Failure>)
      requires Valid() && m in manifests && m in path
      requires forall x, d :: x in path && Edge(DependencyGraph(manifests), m, d) ==>
        StrictlyReaches(DependencyGraph(manifests), x, d)
      modifies this
      ensures r.Ok? ==> Valid() && path == old(path)
      ensures r.Ok? ==> r.value == Identities(Matched(manifests, m.dependencies))
      ensures r.Ok? ==> forall d :: d in m.dependencies ==>
        Match(manifests, d).Some? && Match(manifests, d).value in order
      ensures r.Ok? ==> forall x :: x in old(order) ==> x in order
      ensures r.Ok? ==> forall x :: x in order ==> x in old(order) || Reaches(DependencyGraph(manifests), m, x)
      ensures r.Err? ==> !r.error.DuplicateIdentity?
      ensures r.Err? ==> ReachesCycle(DependencyGraph(manifests), m) || ReachesUnsatisfied(manifests, m)
      decreases |(set x | x in manifests) - path|, 2
    {
      hide Finished, OnPath, Reaches, ReachesCycle, ReachesUnsatisfied, StrictlyReaches, UniqueIdentities,
           DependencyGraph, Edge, SortBy, IdentityLeq, Names, Candidates;
      ghost var g := DependencyGraph(manifests);
      var resolved: seq<Identity> := [];
      var i := 0;
      while i < |m.dependencies|
        invariant 0 <= i <= |m.dependencies|
        invariant Valid() && path == old(path)
        invariant resolved == Identities(Matched(manifests, m.dependencies[..i]))
        invariant forall d :: d in m.dependencies[..i] ==>
          Match(manifests, d).Some? && Match(manifests, d).value in order
        invariant forall x :: x in old(order) ==> x in order
        invariant forall x :: x in order ==> x in old(order) || Reaches(g, m, x)
      {
        var dependency := m.dependencies[i];
        var match_ := Lookup(dependency);
        if match_.None? {
          UnsatisfiedHere(manifests, m, dependency);
          return Err(Unsatisfied(dependency, m.identity));
        }
        var next := match_.value;
        DependencyEdge(manifests, m, dependency);
        var visited := Visit(next);
        if visited.Err? {
          ObstacleBelow(manifests, m, next);
          return Err(visited.error);
        }
        forall x | Reaches(g, next, x) ensures Reaches(g, m, x) {
          ReachesEdge(g, m, next);
          ReachesTransitive(g, m, next, x);
        }
        MatchedOneMore(manifests, m.dependencies, i);
        resolved := resolved + [next.identity];
        i := i + 1;
      }
      TakeAll(m.dependencies);
      r := Ok(resolved);
    }
  }

  lemma UnsatisfiedHere(ms: seq<Manifest>, m: Manifest, d: Dependency)
    requires d in m.dependencies && Match(ms, d).None?
    ensures ReachesUnsatisfied(ms, m)
  {
    ReachesSelf(DependencyGraph(ms), m);
    assert IsUnsatisfied(ms, m);
  }

  lemma NameListed(ms: seq<Manifest>, m: Manifest)
    requires m in ms
    ensures m.identity.name in Names(ms)
  {
    var i :| 0 <= i < |ms| && ms[i] == m;
    assert Names(ms)[i] == m.identity.name;
  }

  lemma DependencyEdge(ms: seq<Manifest>, m: Manifest, d: Dependency)
    requires m in ms && d in m.dependencies && Match(ms, d).Some?
    ensures Edge(DependencyGraph(ms), m, Match(ms, d).value) && Match(ms, d).value in ms
  {
    MatchedMembers(ms, m.dependencies, Match(ms, d).value);
    MatchIsNewest(ms, d);
  }

  lemma PathShrinks(ms: seq<Manifest>, path: set<Manifest>, m: Manifest)
    requires m in ms && m !in path
    ensures |(set x | x in ms) - (path + {m})| < |(set x | x in ms) - path|
  {
    var all := set x | x in ms;
    assert all - (path + {m}) == (all - path) - {m};
    assert m in all - path;
  }

  lemma ObstacleBelow(ms: seq<Manifest>, m: Manifest, next: Manifest)
    requires Edge(DependencyGraph(ms), m, next)
    requires ReachesCycle(DependencyGraph(ms), next) || ReachesUnsatisfied(ms, next)
    ensures ReachesCycle(DependencyGraph(ms), m) || ReachesUnsatisfied(ms, m)
  {
    var g := DependencyGraph(ms);
    ReachesEdge(g, m, next);
    if ReachesCycle(g, next) {
      ReachesCycleStep(g, m, next);
    } else {
      var x :| Reaches(g, next, x) && IsUnsatisfied(ms, x);
      ReachesTransitive(g, m, next, x);
    }
  }

  lemma MatchedOneMore(ms: seq<Manifest>, ds: seq<Dependency>, i: nat)
    requires i < |ds| && Match(ms, ds[i]).Some?
    ensures Identities(Matched(ms, ds[..i + 1])) == Identities(Matched(ms, ds[..i])) + [Match(ms, ds[i]).value.identity]
    ensures forall d :: d in ds[..i + 1] <==> d in ds[..i] || d == ds[i]
  {
    TakeOneMore(ds, i);
  }

  // ----- the whole resolution -----

  lemma {:induction false} NamedIdentities(ms: seq<Manifest>, name: string, id: Identity)
    ensures multiset(Identities(Named(ms, name)))[id] == if id.name == name then multiset(Identities(ms))[id] else 0
  {
    if ms != [] {
      var n := |ms| - 1;
      NamedIdentities(ms[..n], name, id);
      assert Identities(ms) == Identities(ms[..n]) + [ms[n].identity];
      if ms[n].identity.name == name {
        assert Identities(Named(ms, name)) == Identities(Named(ms[..n], name)) + [ms[n].identity];
      }
    }
  }

  /** Identities are unique exactly when they are within every name. */
  lemma UniqueByName(ms: seq<Manifest>)
    ensures UniqueIdentities(ms) <==> forall name :: name in Names(ms) ==> NoDuplicates(Identities(Named(ms, name)))
  {
    if UniqueIdentities(ms) {
      assert NoDuplicates(Identities(ms));
      forall name | name in Names(ms) ensures NoDuplicates(Identities(Named(ms, name))) {
        forall id ensures multiset(Identities(Named(ms, name)))[id] <= 1 {
          NamedIdentities(ms, name, id);
          MultiplicityAtMostOne(Identities(ms), id);
        }
        NoDuplicatesFromMultiset(Identities(Named(ms, name)));
      }
    } else {
      var i, j :| 0 <= i < j < |ms| && ms[i].identity == ms[j].identity;
      var id, ids := ms[i].identity, Identities(ms);
      NamedIdentities(ms, id.name, id);
      assert ids[i] == ids[j] == id && Names(ms)[i] == id.name;
      assert !NoDuplicates(ids);
      if NoDuplicates(Identities(Named(ms, id.name))) {
        MultiplicityAtMostOne(Identities(Named(ms, id.name)), id);
        TwiceInside(ids, i, j);
      }
    }
  }

  ghost predicate GroupedSoFar(ms: seq<Manifest>, names: seq<string>, lists: map<string, seq<Manifest>>) {
    && names == Distinct(Names(ms))
    && (forall name :: name in lists <==> name in Names(ms))
    && forall name :: name in lists ==> lists[name] == Named(ms, name)
  }

  lemma UnnamedIsEmpty(ms: seq<Manifest>, name: string)
    requires name !in Names(ms)
    ensures Named(ms, name) == []
  {
    if Named(ms, name) != [] {
      var m := Named(ms, name)[0];
      NamedMembers(ms, name, m);
      NameListed(ms, m);
    }
  }

  lemma GroupedOneMore(ms: seq<Manifest>, i: nat, names: seq<string>, lists: map<string, seq<Manifest>>)
    requires i < |ms| && GroupedSoFar(ms[..i], names, lists)
    ensures var name := ms[i].identity.name;
      GroupedSoFar(ms[..i + 1],
                   if name in lists then names else names + [name],
                   lists[name := (if name in lists then lists[name] else []) + [ms[i]]])
  {
    var name := ms[i].identity.name;
    TakeOneMore(ms, i);
    assert Names(ms[..i + 1]) == Names(ms[..i]) + [name];
    if name !in lists { UnnamedIsEmpty(ms[..i], name); }
  }

  /** The dictionary of candidates by name, with its keys in insertion order. */
  method GroupByName(ms: seq<Manifest>) returns (names: seq<string>, lists: map<string, seq<Manifest>>)
    ensures GroupedSoFar(ms, names, lists)
  {
    names, lists := [], map[];
    for i := 0 to |ms|
      invariant GroupedSoFar(ms[..i], names, lists)
    {
      GroupedOneMore(ms, i, names, lists);
      var name := ms[i].identity.name;
      if name !in lists {
        names := names + [name];
      }
      lists := lists[name := (if name in lists then lists[name] else []) + [ms[i]]];
    }
    TakeAll(ms);
  }

  lemma SelectedInput(ms: seq<Manifest>, m: Manifest)
    requires Selected(ms, m)
    ensures m in ms
  {
    var g := DependencyGraph(ms);
    var root :| IsRoot(ms, root) && Reaches(g, root, m);
    var all := set x | x in ms;
    forall a, b | a in all && Edge(g, a, b) ensures b in all {
      MatchedMembers(ms, a.dependencies, b);
      var d :| d in a.dependencies && Match(ms, d) == Some(b);
      MatchIsNewest(ms, d);
    }
    ReachesInClosedSet(g, all, root, m);
  }

  /** Every selected manifest has all its dependencies selected, each the newest that satisfies it. */
  lemma ClosureIsClosed(ms: seq<Manifest>, m: Manifest, d: Dependency)
    requires Resolvable(ms) && Selected(ms, m) && d in m.dependencies
    ensures Match(ms, d).Some? && Selected(ms, Match(ms, d).value) && IsNewestMatch(ms, d, Match(ms, d).value)
    ensures !ReachesCycle(DependencyGraph(ms), m)
  {
    var g := DependencyGraph(ms);
    SelectedInput(ms, m);
    var root :| IsRoot(ms, root) && Reaches(g, root, m);
    assert Match(ms, d).None? ==> IsUnsatisfied(ms, m);
    MatchIsNewest(ms, d);
    DependencyEdge(ms, m, d);
    ReachesEdge(g, m, Match(ms, d).value);
    ReachesTransitive(g, root, m, Match(ms, d).value);
    if ReachesCycle(g, m) { ReachesCycleStep(g, root, m); }
  }

  /** The candidates of every name, newest first, unless one version of a name appears twice. */
  method SortCandidates(ms: seq<Manifest>, names: seq<string>, lists: map<string, seq<Manifest>>)
    returns (r: Result<map<string, seq<Manifest>>, Failure>)
    requires GroupedSoFar(ms, names, lists)
    ensures r.Ok? <==> UniqueIdentities(ms)
    ensures r.Err? ==> r.error.DuplicateIdentity?
    ensures r.Ok? ==> r.value.Keys == lists.Keys
    ensures r.Ok? ==> forall name :: name in r.value ==> r.value[name] == Candidates(ms, name)
  {
    hide NoDuplicates, UniqueIdentities, SortBy, Named;
    UniqueByName(ms);
    for i := 0 to |names|
      invariant forall k :: 0 <= k < i ==> NoDuplicates(Identities(Named(ms, names[k])))
    {
      var identities := Identities(lists[names[i]]);
      DistinctCount(identities);
      if |identities| != |set id | id in identities| {
        assert names[i] in Names(ms);
        return Err(DuplicateIdentity(names[i]));
      }
    }
    r := Ok(map name | name in lists :: SortBy(NewerFirst, lists[name]));
  }

  /** Succeeds exactly when identities are unique and no newest version reaches a cycle or an
      unsatisfied dependency; the result is then the resolution of the candidates. */
  method ResolvePackageManifests(ms: seq<Manifest>) returns (r: Result<Resolution, Failure>)
    ensures r.Err? && r.error.DuplicateIdentity? <==> !UniqueIdentities(ms)
    ensures r.Ok? <==> UniqueIdentities(ms) && Resolvable(ms)
    ensures r.Ok? ==> IsResolution(ms, r.value)
  {
    hide Finished, FinishingOrder, OnPath, IsResolution, DependencyGraph, Reaches, ReachesCycle, ReachesUnsatisfied,
         UniqueIdentities, RootsVisited, IsRoot, Selected, SortBy;
    var names, lists := GroupByName(ms);
    var candidates := SortCandidates(ms, names, lists);
    if candidates.Err? {
      return Err(candidates.error);
    }
    var resolver := new Resolver(ms, candidates.value);
    NoRootsYet(ms);
    var i := 0;
    while i < |names|
      invariant 0 <= i <= |names|
      invariant resolver.Valid() && resolver.path == {}
      invariant RootsVisited(ms, names[..i], resolver.order)
      modifies resolver
    {
      var name := names[i];
      assert name in Names(ms);
      NewestOf(ms, name);
      var root := candidates.value[name][0];
      ghost var before := resolver.order;
      var visited := resolver.Visit(root);
      if visited.Err? {
        return Err(visited.error);
      }
      RootsOneMore(ms, names, i, before, resolver.order);
      i := i + 1;
    }
    TakeAll(names);
    OrderIsClosure(ms, names, resolver.order, resolver.selected, resolver.dependencyMap);
    ResolutionFromOrder(ms, resolver.order, resolver.selected, resolver.dependencyMap);
    r := Ok(Resolution(SortBy(ManifestLeq, resolver.order), resolver.dependencyMap));
  }

  /** The newest versions of the given names are finished, and everything finished comes from them. */
  ghost predicate RootsVisited(ms: seq<Manifest>, names: seq<string>, order: seq<Manifest>) {
    && (forall root :: IsRoot(ms, root) && root.identity.name in names ==> root in order)
    && (forall m :: m in order ==> Selected(ms, m))
  }

  lemma NewestOf(ms: seq<Manifest>, name: string)
    requires name in Names(ms)
    ensures Candidates(ms, name) != [] && IsRoot(ms, Candidates(ms, name)[0])
    ensures Candidates(ms, name)[0].identity.name == name
  {
    var i :| 0 <= i < |ms| && Names(ms)[i] == name;
    CandidatesMembers(ms, name, ms[i]);
    CandidatesMembers(ms, name, Candidates(ms, name)[0]);
  }

  lemma NoRootsYet(ms: seq<Manifest>)
    ensures RootsVisited(ms, [], [])
  {
  }

  lemma RootsOneMore(ms: seq<Manifest>, names: seq<string>, i: nat, before: seq<Manifest>, after: seq<Manifest>)
    requires i < |names| && RootsVisited(ms, names[..i], before)
    requires Candidates(ms, names[i]) != [] && IsRoot(ms, Candidates(ms, names[i])[0])
    requires Candidates(ms, names[i])[0] in after && forall x :: x in before ==> x in after
    requires forall x :: x in after ==> x in before || Reaches(DependencyGraph(ms), Candidates(ms, names[i])[0], x)
    ensures RootsVisited(ms, names[..i + 1], after)
  {
    TakeOneMore(names, i);
  }

  lemma OrderIsClosure(
    ms: seq<Manifest>, names: seq<string>, order: seq<Manifest>,
    selected: map<Identity, Manifest>, dependencyMap: map<Identity, seq<Identity>>)
    requires names == Distinct(Names(ms)) && RootsVisited(ms, names, order)
    requires Finished(ms, order, selected, dependencyMap)
    ensures forall m :: m in order <==> Selected(ms, m)
    ensures Resolvable(ms)
  {
    var g := DependencyGraph(ms);
    forall root | IsRoot(ms, root)
      ensures !ReachesCycle(g, root) && !ReachesUnsatisfied(ms, root) && forall m :: Reaches(g, root, m) ==> m in order
    {
      NameListed(ms, root);
      FinishingOrderAcyclic(g, order, root);
    }
  }

  lemma ManifestOrder()
    ensures Preorder(ManifestLeq)
  {
    VersionOrder();
    StringOrder();
  }

  lemma ResolutionFromOrder(
    ms: seq<Manifest>, order: seq<Manifest>,
    selected: map<Identity, Manifest>, dependencyMap: map<Identity, seq<Identity>>)
    requires Finished(ms, order, selected, dependencyMap) && forall m :: m in order <==> Selected(ms, m)
    ensures IsResolution(ms, Resolution(SortBy(ManifestLeq, order), dependencyMap))
  {
    ManifestOrder();
    SortBySorted(ManifestLeq, order);
    SortByNoDuplicates(ManifestLeq, order);
  }

  // ----- one resolution, whatever the order of the candidates -----

  lemma ManifestsSeparated(ms: seq<Manifest>, s: seq<Manifest>)
    requires UniqueIdentities(ms) && forall m :: m in s ==> m in ms
    ensures Separates(ManifestLeq, s)
  {
    VersionOrder();
    StringOrder();
    forall a, b | a in s && b in s && ManifestLeq(a, b) && ManifestLeq(b, a) ensures a == b {
      SameIdentity(ms, a, b);
    }
  }

  lemma SameSelection(ms: seq<Manifest>, a: seq<Manifest>, b: seq<Manifest>)
    requires UniqueIdentities(ms) && NoDuplicates(a) && NoDuplicates(b)
    requires Sorted(ManifestLeq, a) && Sorted(ManifestLeq, b)
    requires (forall m :: m in a ==> m in ms) && forall m :: m in a <==> m in b
    ensures a == b
  {
    ManifestsSeparated(ms, a);
    ManifestOrder();
    NoDuplicatesMultiset(a);
    NoDuplicatesMultiset(b);
    assert (set m | m in a) == (set m | m in b);
    SortedUnique(ManifestLeq, a, b);
  }

  /** There is only one resolution. */
  lemma ResolutionUnique(ms: seq<Manifest>, a: Resolution, b: Resolution)
    requires UniqueIdentities(ms) && IsResolution(ms, a) && IsResolution(ms, b)
    ensures a == b
  {
    hide Selected, Sorted, NoDuplicates, UniqueIdentities, DependencyList;
    forall m | m in a.manifests ensures m in ms { SelectedInput(ms, m); }
    SameSelection(ms, a.manifests, b.manifests);
    assert a.dependencies.Keys == b.dependencies.Keys;
    forall id | id in a.dependencies ensures a.dependencies[id] == b.dependencies[id] {
      var m :| m in a.manifests && m.identity == id;
    }
  }

  lemma SameCandidates(a: seq<Manifest>, b: seq<Manifest>, name: string)
    requires UniqueIdentities(a) && multiset(a) == multiset(b)
    ensures Candidates(a, name) == Candidates(b, name)
  {
    forall m ensures multiset(Named(a, name))[m] == multiset(Named(b, name))[m] {
      NamedMembers(a, name, m);
      NamedMembers(b, name, m);
    }
    NewestFirstOrder();
    VersionOrder();
    forall x, y | x in Named(a, name) && y in Named(a, name) && NewerFirst(x, y) && NewerFirst(y, x) ensures x == y {
      NamedMembers(a, name, x);
      NamedMembers(a, name, y);
      SameIdentity(a, x, y);
    }
    SortByCanonical(NewerFirst, Named(a, name), Named(b, name));
  }

  lemma {:induction false} SameMatched(a: seq<Manifest>, b: seq<Manifest>, ds: seq<Dependency>)
    requires UniqueIdentities(a) && multiset(a) == multiset(b)
    ensures Matched(a, ds) == Matched(b, ds)
  {
    if ds != [] {
      SameMatched(a, b, ds[..|ds| - 1]);
      SameCandidates(a, b, ds[|ds| - 1].name);
    }
  }

  lemma SameInputs(a: seq<Manifest>, b: seq<Manifest>)
    requires UniqueIdentities(a) && multiset(a) == multiset(b)
    ensures DependencyGraph(a) == DependencyGraph(b)
    ensures forall m :: IsRoot(a, m) <==> IsRoot(b, m)
    ensures forall m :: IsUnsatisfied(a, m) <==> IsUnsatisfied(b, m)
  {
    assert forall m :: m in a <==> m in multiset(a);
    assert forall m :: m in b <==> m in multiset(b);
    forall m | m in a ensures Matched(a, m.dependencies) == Matched(b, m.dependencies) {
      SameMatched(a, b, m.dependencies);
    }
    forall m ensures IsRoot(a, m) <==> IsRoot(b, m) { SameCandidates(a, b, m.identity.name); }
    forall d: Dependency ensures Match(a, d) == Match(b, d) { SameCandidates(a, b, d.name); }
  }

  lemma SameDependencyList(a: seq<Manifest>, b: seq<Manifest>, m: Manifest)
    requires UniqueIdentities(a) && multiset(a) == multiset(b)
    ensures DependencyList(a, m) == DependencyList(b, m)
  {
    SameMatched(a, b, m.dependencies);
  }

  lemma UniqueIdentitiesPermuted(a: seq<Manifest>, b: seq<Manifest>)
    requires UniqueIdentities(a) && multiset(a) == multiset(b)
    ensures UniqueIdentities(b)
  {
    forall i, j | 0 <= i < j < |b| ensures b[i].identity != b[j].identity {
      var k, l := PermutedPair(b, a, i, j);
      assert k < l ==> a[k].identity != a[l].identity;
      assert l < k ==> a[l].identity != a[k].identity;
    }
  }

  /** The order in which candidates are given decides neither success nor the result. */
  lemma ResolutionIgnoresOrder(a: seq<Manifest>, b: seq<Manifest>, r: Resolution)
    requires multiset(a) == multiset(b)
    ensures UniqueIdentities(a) <==> UniqueIdentities(b)
    ensures UniqueIdentities(a) ==> (Resolvable(a) <==> Resolvable(b))
    ensures UniqueIdentities(a) ==> (IsResolution(a, r) <==> IsResolution(b, r))
  {
    hide DependencyList, DependencyGraph, Reaches, ReachesCycle, IsRoot, IsUnsatisfied, UniqueIdentities;
    if UniqueIdentities(b) { UniqueIdentitiesPermuted(b, a); }
    if UniqueIdentities(a) {
      UniqueIdentitiesPermuted(a, b);
      SameInputs(a, b);
      assert forall m :: Selected(a, m) <==> Selected(b, m);
      forall m: Manifest ensures DependencyList(a, m) == DependencyList(b, m) { SameDependencyList(a, b, m); }
    }
  }

  // ----- the terms of a resolution -----

  /** The search starts from the newest version of each name. */
  lemma RootsAreNewest(ms: seq<Manifest>, m: Manifest)
    requires UniqueIdentities(ms)
    ensures IsRoot(ms, m) <==>
      m in ms && forall o :: o in ms && o.identity.name == m.identity.name ==>
        VersionLeq(o.identity.version, m.identity.version)
  {
    var name := m.identity.name;
    AnythingResolvesToNewest(ms, name);
    var found := Match(ms, Dependency(name, Anything));
    FirstIsFirst(Candidates(ms, name));
    if found.Some? && m in ms && VersionLeq(found.value.identity.version, m.identity.version) {
      VersionOrder();
      SameVersion(ms, m, found.value);
    }
  }

  lemma FirstIsFirst(options: seq<Manifest>)
    ensures FirstMatch(options, Anything) == if options == [] then None else Some(options[0])
  {
    if options != [] { AnythingMatchesAll(options[0].identity.version); }
  }

  lemma SameVersion(ms: seq<Manifest>, m: Manifest, o: Manifest)
    requires UniqueIdentities(ms) && m in ms && o in ms && o.identity.name == m.identity.name
    ensures o.identity.version == m.identity.version ==> o == m
  {
    if o.identity.version == m.identity.version {
      assert o.identity == Identity(o.identity.name, o.identity.version);
      assert m.identity == Identity(m.identity.name, m.identity.version);
      SameIdentity(ms, m, o);
    }
  }

  /** The result is listed by name and then by version, and what a package depends on by its identity's text. */
  lemma ListedInOrder(ms: seq<Manifest>, r: Resolution, i: nat, j: nat)
    requires IsResolution(ms, r) && i < j
    ensures j < |r.manifests| ==>
      var a, b := r.manifests[i].identity, r.manifests[j].identity;
      if a.name == b.name then VersionLeq(a.version, b.version) else StringLeq(a.name, b.name)
    ensures forall m :: m in r.manifests && j < |r.dependencies[m.identity]| ==>
      var a, b := r.dependencies[m.identity][i], r.dependencies[m.identity][j];
      StringLeq(a.name + "@" + VersionText(a.version), b.name + "@" + VersionText(b.version))
  {
    hide VersionText, StringLeq, VersionLeq;
    if j < |r.manifests| { assert ManifestLeq(r.manifests[i], r.manifests[j]); }
    forall m | m in r.manifests && j < |r.dependencies[m.identity]|
      ensures IdentityLeq(r.dependencies[m.identity][i], r.dependencies[m.identity][j])
    {
      ListSorted(ms, m);
    }
  }

  lemma ListSorted(ms: seq<Manifest>, m: Manifest)
    ensures Sorted(IdentityLeq, DependencyList(ms, m))
  {
    StringOrder();
    SortBySorted(IdentityLeq, Identities(Matched(ms, m.dependencies)));
  }

  /** A package is recorded to depend on exactly what its dependencies resolve to. */
  lemma DependenciesAreMatches(ms: seq<Manifest>, r: Resolution, m: Manifest, id: Identity)
    requires IsResolution(ms, r) && m in r.manifests
    ensures m.identity in r.dependencies
    ensures id in r.dependencies[m.identity] <==>
      exists d, o :: d in m.dependencies && Match(ms, d) == Some(o) && o.identity == id
  {
    hide IsResolution, DependencyList;
    RecordedList(ms, r, m);
    ListOfMatches(ms, m, id);
  }

  lemma RecordedList(ms: seq<Manifest>, r: Resolution, m: Manifest)
    requires IsResolution(ms, r) && m in r.manifests
    ensures m.identity in r.dependencies && r.dependencies[m.identity] == DependencyList(ms, m)
  {
  }

  lemma ListOfMatches(ms: seq<Manifest>, m: Manifest, id: Identity)
    ensures id in DependencyList(ms, m) <==>
      exists d, o :: d in m.dependencies && Match(ms, d) == Some(o) && o.identity == id
  {
    hide Match;
    var matched := Matched(ms, m.dependencies);
    if id in DependencyList(ms, m) {
      var i :| 0 <= i < |matched| && Identities(matched)[i] == id;
      MatchedMembers(ms, m.dependencies, matched[i]);
    }
    if d, o :| d in m.dependencies && Match(ms, d) == Some(o) && o.identity == id {
      MatchedMembers(ms, m.dependencies, o);
      var i :| 0 <= i < |matched| && matched[i] == o;
      assert Identities(matched)[i] == id;
    }
  }
}
