/** Impact analysis of a system specification: what a change reaches
    (tools/system-spec/reference-implementation/metamodel.py). */
module SpecImpact {
  import opened Text
  import opened Ordering
  import opened Graphs
  import opened SpecGraphs

  /** `required` lists capability names, without their version constraints. */
  datatype Component = Component(id: Id, provided: seq<Id>, required: seq<Id>, owned: seq<Id>)

  datatype DataModel = DataModel(id: Id, owner: Id, derivedFrom: seq<Id>)

  datatype Requirement = Requirement(id: Id, target: Id, dependsOn: seq<Id>, refined: seq<Id>)

  datatype Evidence = Evidence(id: Id, requirement: Id, subject: Option<Id>)

  datatype Spec = Spec(
    system: Id, capabilities: seq<Id>, components: seq<Component>, models: seq<DataModel>,
    requirements: seq<Requirement>, evidence: seq<Evidence>)

  // ----- one step of influence -----

  /** Consumers of `x`; of the changed element itself also its providers. */
  function Consumers(cs: seq<Component>, target: Id, x: Id): seq<Id> {
    if cs == [] then []
    else
      (if x in cs[0].required || (x == target && x in cs[0].provided) then [cs[0].id] else []) +
      Consumers(cs[1..], target, x)
  }

  function Derived(ms: seq<DataModel>, x: Id): seq<Id> {
    if ms == [] then [] else (if x in ms[0].derivedFrom then [ms[0].id] else []) + Derived(ms[1..], x)
  }

  function Parts(cs: seq<Component>, x: Id): seq<Id> {
    if cs == [] then []
    else (if cs[0].id == x then cs[0].provided + cs[0].owned else []) + Parts(cs[1..], x)
  }

  function Owners(ms: seq<DataModel>, x: Id): seq<Id> {
    if ms == [] then [] else (if ms[0].id == x then [ms[0].owner] else []) + Owners(ms[1..], x)
  }

  /** What a change to `x` reaches directly. */
  function Next(s: Spec, target: Id, x: Id): seq<Id> {
    Consumers(s.components, target, x) + Derived(s.models, x) + Parts(s.components, x) + Owners(s.models, x)
  }

  /** Everything the worklist can ever hold. */
  function Universe(s: Spec, target: Id): set<Id> {
    {target} + (set i | 0 <= i < |s.components| :: s.components[i].id) +
    (set i, p | 0 <= i < |s.components| && p in s.components[i].provided + s.components[i].owned :: p) +
    (set i | 0 <= i < |s.models| :: s.models[i].id) + (set i | 0 <= i < |s.models| :: s.models[i].owner)
  }

  function Influence(s: Spec, target: Id): Graph<Id> {
    map x | x in Universe(s, target) :: Next(s, target, x)
  }

  lemma {:induction false} ConsumersMembers(cs: seq<Component>, target: Id, x: Id, y: Id)
    requires y in Consumers(cs, target, x)
    ensures exists i :: 0 <= i < |cs| && cs[i].id == y
  {
    if !(cs[0].id == y) {
      ConsumersMembers(cs[1..], target, x, y);
      var i :| 0 <= i < |cs[1..]| && cs[1..][i].id == y;
      assert cs[i + 1].id == y;
    }
  }

  lemma {:induction false} DerivedMembers(ms: seq<DataModel>, x: Id, y: Id)
    requires y in Derived(ms, x)
    ensures exists i :: 0 <= i < |ms| && ms[i].id == y
  {
    if !(ms[0].id == y) {
      DerivedMembers(ms[1..], x, y);
      var i :| 0 <= i < |ms[1..]| && ms[1..][i].id == y;
      assert ms[i + 1].id == y;
    }
  }

  lemma {:induction false} PartsMembers(cs: seq<Component>, x: Id, y: Id)
    requires y in Parts(cs, x)
    ensures exists i :: 0 <= i < |cs| && y in cs[i].provided + cs[i].owned
  {
    if y !in cs[0].provided + cs[0].owned {
      PartsMembers(cs[1..], x, y);
      var i :| 0 <= i < |cs[1..]| && y in cs[1..][i].provided + cs[1..][i].owned;
      assert y in cs[i + 1].provided + cs[i + 1].owned;
    }
  }

  lemma {:induction false} OwnersMembers(ms: seq<DataModel>, x: Id, y: Id)
    requires y in Owners(ms, x)
    ensures exists i :: 0 <= i < |ms| && ms[i].owner == y
  {
    if !(ms[0].owner == y) {
      OwnersMembers(ms[1..], x, y);
      var i :| 0 <= i < |ms[1..]| && ms[1..][i].owner == y;
      assert ms[i + 1].owner == y;
    }
  }

  lemma NextInside(s: Spec, target: Id, x: Id, y: Id)
    requires y in Next(s, target, x)
    ensures y in Universe(s, target)
  {
    hide Consumers, Derived, Parts, Owners;
    if y in Consumers(s.components, target, x) { ConsumersMembers(s.components, target, x, y); }
    else if y in Derived(s.models, x) { DerivedMembers(s.models, x, y); }
    else if y in Parts(s.components, x) { PartsMembers(s.components, x, y); }
    else { OwnersMembers(s.models, x, y); }
  }

  // ----- the worklist -----

  /** The worklist between two steps. */
  ghost predicate Spreading(s: Spec, target: Id, seen: set<Id>, todo: seq<Id>) {
    var g := Influence(s, target);
    && (forall x :: x in seen || x in todo ==> Reaches(g, target, x) && x in Universe(s, target))
    && (target in seen || target in todo)
    && (forall x, y :: x in seen && Edge(g, x, y) ==> y in seen || y in todo)
  }

  lemma SpreadStart(s: Spec, target: Id)
    ensures Spreading(s, target, {}, [target])
  {
    ReachesSelf(Influence(s, target), target);
  }

  lemma SpreadSkip(s: Spec, target: Id, seen: set<Id>, todo: seq<Id>)
    requires todo != [] && Spreading(s, target, seen, todo) && todo[|todo| - 1] in seen
    ensures Spreading(s, target, seen, todo[..|todo| - 1])
  {
    hide Influence, Universe, Reaches, Edge;
    SplitLast(todo);
  }

  lemma SpreadStep(s: Spec, target: Id, seen: set<Id>, todo: seq<Id>)
    requires todo != [] && Spreading(s, target, seen, todo)
    ensures var x := todo[|todo| - 1];
      x in Universe(s, target) && Spreading(s, target, seen + {x}, todo[..|todo| - 1] + Next(s, target, x))
  {
    hide Universe, Reaches, Next;
    SplitLast(todo);
    var g, x := Influence(s, target), todo[|todo| - 1];
    forall y | y in Next(s, target, x) ensures Reaches(g, target, y) && y in Universe(s, target) {
      NextInside(s, target, x, y);
      assert Edge(g, x, y);
      ReachesEdge(g, x, y);
      ReachesTransitive(g, target, x, y);
    }
  }

  lemma SpreadEnd(s: Spec, target: Id, seen: set<Id>)
    requires Spreading(s, target, seen, [])
    ensures forall x :: x in seen <==> Reaches(Influence(s, target), target, x)
  {
    hide Influence, Universe;
    forall x | Reaches(Influence(s, target), target, x) ensures x in seen {
      ReachesInClosedSet(Influence(s, target), seen, target, x);
    }
  }

  /** The worklist ends with everything the change reaches, and only that. */
  method Spread(s: Spec, target: Id) returns (seen: set<Id>)
    ensures forall x :: x in seen <==> Reaches(Influence(s, target), target, x)
  {
    hide Spreading, Universe, Next, Influence, Reaches;
    seen := {};
    var todo := [target];
    SpreadStart(s, target);
    while todo != []
      invariant Spreading(s, target, seen, todo)
      decreases |Universe(s, target) - seen|, |todo|
    {
      var x := todo[|todo| - 1];
      if x in seen {
        SpreadSkip(s, target, seen, todo);
        todo := todo[..|todo| - 1];
      } else {
        SpreadStep(s, target, seen, todo);
        SmallerSet(Universe(s, target) - (seen + {x}), Universe(s, target) - seen);
        seen := seen + {x};
        todo := todo[..|todo| - 1] + Next(s, target, x);
      }
    }
    SpreadEnd(s, target, seen);
  }

  // ----- requirements -----

  function Parents(r: Requirement): seq<Id> { r.dependsOn + r.refined }

  /** From what a requirement depends on or refines to the requirement. */
  ghost predicate Raises(s: Spec, x: Id, y: Id) {
    exists i :: 0 <= i < |s.requirements| && s.requirements[i].id == y && x in Parents(s.requirements[i])
  }

  ghost predicate Base(s: Spec, target: Id, seen: set<Id>, id: Id) {
    exists i :: 0 <= i < |s.requirements| && s.requirements[i].id == id &&
      (s.requirements[i].target in seen || s.requirements[i].target == s.system || id == target)
  }

  /** A chain of requirements from one touched directly. */
  ghost predicate Chain(s: Spec, target: Id, seen: set<Id>, p: seq<Id>) {
    p != [] && Base(s, target, seen, p[0]) && forall i :: 0 <= i < |p| - 1 ==> Raises(s, p[i], p[i + 1])
  }

  ghost predicate Touched(s: Spec, target: Id, seen: set<Id>, id: Id) {
    exists p :: Chain(s, target, seen, p) && p[|p| - 1] == id
  }

  lemma TouchedNext(s: Spec, target: Id, seen: set<Id>, x: Id, y: Id)
    requires Touched(s, target, seen, x) && Raises(s, x, y)
    ensures Touched(s, target, seen, y)
  {
    hide Base, Raises;
    var p :| Chain(s, target, seen, p) && p[|p| - 1] == x;
    var q := p + [y];
    assert Chain(s, target, seen, q) && q[|q| - 1] == y;
  }

  /** A set that holds what is touched directly and is closed holds every chain. */
  lemma {:induction false} ChainInside(s: Spec, target: Id, seen: set<Id>, reqs: set<Id>, p: seq<Id>)
    requires Chain(s, target, seen, p)
    requires forall x :: Base(s, target, seen, x) ==> x in reqs
    requires forall x, y :: x in reqs && Raises(s, x, y) ==> y in reqs
    ensures p[|p| - 1] in reqs
    decreases |p|
  {
    hide Base, Raises;
    if |p| > 1 {
      var init := p[..|p| - 1];
      assert Chain(s, target, seen, init);
      ChainInside(s, target, seen, reqs, init);
      assert Raises(s, p[|p| - 2], p[|p| - 2 + 1]);
    }
  }

  function Touching(rs: seq<Requirement>, system: Id, target: Id, seen: set<Id>): set<Id> {
    set i | 0 <= i < |rs| && (rs[i].target in seen || rs[i].target == system || rs[i].id == target) :: rs[i].id
  }

  /** The requirements not yet included that depend on or refine an included one. */
  function Raised(rs: seq<Requirement>, reqs: set<Id>): set<Id> {
    set i | 0 <= i < |rs| && rs[i].id !in reqs && (exists d :: d in Parents(rs[i]) && d in reqs) :: rs[i].id
  }

  /** The fixpoint over requirements. */
  method RaiseRequirements(s: Spec, target: Id, seen: set<Id>) returns (reqs: set<Id>)
    ensures forall id :: id in reqs <==> Touched(s, target, seen, id)
  {
    hide Touched, Base, Raises, Parents;
    var all := set i | 0 <= i < |s.requirements| :: s.requirements[i].id;
    reqs := Touching(s.requirements, s.system, target, seen);
    TouchingStart(s, target, seen);
    var more := Raised(s.requirements, reqs);
    while more != {}
      invariant more == Raised(s.requirements, reqs) && reqs <= all
      invariant forall id :: id in reqs ==> Touched(s, target, seen, id)
      invariant forall id :: Base(s, target, seen, id) ==> id in reqs
      decreases |all - reqs|
    {
      forall id | id in more ensures Touched(s, target, seen, id) { RaisedIsTouched(s, target, seen, reqs, id); }
      var x :| x in more;
      assert x in all && x !in reqs;
      SmallerSet(all - (reqs + more), all - reqs);
      reqs := reqs + more;
      more := Raised(s.requirements, reqs);
    }
    FixpointHoldsAll(s, target, seen, reqs);
  }

  lemma TouchingStart(s: Spec, target: Id, seen: set<Id>)
    ensures forall id :: id in Touching(s.requirements, s.system, target, seen) <==> Base(s, target, seen, id)
    ensures forall id :: Base(s, target, seen, id) ==> Touched(s, target, seen, id)
  {
    forall id | Base(s, target, seen, id) ensures Touched(s, target, seen, id) {
      assert Chain(s, target, seen, [id]);
    }
  }

  lemma RaisedIsTouched(s: Spec, target: Id, seen: set<Id>, reqs: set<Id>, id: Id)
    requires id in Raised(s.requirements, reqs) && forall x :: x in reqs ==> Touched(s, target, seen, x)
    ensures Touched(s, target, seen, id)
  {
    hide Touched, Parents;
    var i :| 0 <= i < |s.requirements| && s.requirements[i].id == id &&
      exists d :: d in Parents(s.requirements[i]) && d in reqs;
    var d :| d in Parents(s.requirements[i]) && d in reqs;
    TouchedNext(s, target, seen, d, id);
  }

  lemma FixpointHoldsAll(s: Spec, target: Id, seen: set<Id>, reqs: set<Id>)
    requires Raised(s.requirements, reqs) == {} && forall id :: Base(s, target, seen, id) ==> id in reqs
    ensures forall id :: Touched(s, target, seen, id) ==> id in reqs
  {
    hide Base, Parents;
    forall x, y | x in reqs && Raises(s, x, y) ensures y in reqs {
      var i :| 0 <= i < |s.requirements| && s.requirements[i].id == y && x in Parents(s.requirements[i]);
      assert y !in reqs ==> y in Raised(s.requirements, reqs);
    }
    hide Raises;
    forall id | Touched(s, target, seen, id) ensures id in reqs {
      var p :| Chain(s, target, seen, p) && p[|p| - 1] == id;
      ChainInside(s, target, seen, reqs, p);
    }
  }

  // ----- the report -----

  datatype Impact = Impact(
    components: seq<Id>, capabilities: seq<Id>, models: seq<Id>, requirements: seq<Id>, evidence: seq<Id>)

  function Kept(ids: seq<Id>, keep: set<Id>): (r: seq<Id>)
    ensures forall x :: x in r <==> x in ids && x in keep
    ensures NoDuplicates(ids) ==> NoDuplicates(r)
  {
    if ids == [] then []
    else
      var n := |ids| - 1;
      var rest := Kept(ids[..n], keep);
      SplitLast(ids);
      if ids[n] in keep then rest + [ids[n]] else rest
  }

  predicate IsAbout(e: Evidence, reqs: set<Id>, seen: set<Id>) {
    e.requirement in reqs || (e.subject.Some? && e.subject.value in seen)
  }

  function Invalidated(es: seq<Evidence>, reqs: set<Id>, seen: set<Id>): (r: seq<Id>)
    ensures forall x :: x in r <==> exists i :: 0 <= i < |es| && es[i].id == x && IsAbout(es[i], reqs, seen)
  {
    if es == [] then []
    else
      var n := |es| - 1;
      var rest := Invalidated(es[..n], reqs, seen);
      SplitLast(es);
      if IsAbout(es[n], reqs, seen) then rest + [es[n].id] else rest
  }

  /** Evidence for a touched requirement, or about an element the change reaches. */
  ghost predicate Concerns(s: Spec, target: Id, seen: set<Id>, e: Evidence) {
    Touched(s, target, seen, e.requirement) ||
    (e.subject.Some? && Reaches(Influence(s, target), target, e.subject.value))
  }

  lemma KeptLast(ids: seq<Id>, keep: set<Id>)
    requires ids != []
    ensures var n := |ids| - 1;
      Kept(ids, keep) == Kept(ids[..n], keep) + if ids[n] in keep then [ids[n]] else []
  {
  }

  /** What is kept stays in the order it was listed in. */
  lemma {:induction false} KeptInOrder(ids: seq<Id>, keep: set<Id>, i: nat, j: nat) returns (k: nat, l: nat)
    requires i < j < |ids| && ids[i] in keep && ids[j] in keep
    ensures k < l < |Kept(ids, keep)| && Kept(ids, keep)[k] == ids[i] && Kept(ids, keep)[l] == ids[j]
    decreases |ids|
  {
    hide Kept;
    var n := |ids| - 1;
    var init := ids[..n];
    KeptLast(ids, keep);
    assert init[i] == ids[i];
    if j < n {
      assert init[j] == ids[j];
      k, l := KeptInOrder(init, keep, i, j);
    } else {
      k := PlaceOf(Kept(init, keep), init[i]);
      l := |Kept(init, keep)|;
    }
  }

  lemma PlaceOf(s: seq<Id>, x: Id) returns (k: nat)
    requires x in s
    ensures k < |s| && s[k] == x
  {
    k :| k < |s| && s[k] == x;
  }

  /** Reports exactly the elements the change reaches, the requirements on chains from one that is
      touched, and the evidence about either. */
  method ImpactAnalysis(s: Spec, target: Id) returns (r: Impact, ghost seen: set<Id>, ghost reqs: set<Id>)
    ensures r.components == Kept(ComponentIds(s.components), seen) && r.capabilities == Kept(s.capabilities, seen)
    ensures r.models == Kept(ModelIds(s.models), seen) && r.requirements == Kept(RequirementIds(s.requirements), reqs)
    ensures r.evidence == Invalidated(s.evidence, reqs, seen)
    ensures forall x :: x in seen <==> Reaches(Influence(s, target), target, x)
    ensures forall c :: c in r.components <==>
      Reaches(Influence(s, target), target, c) && exists i :: 0 <= i < |s.components| && s.components[i].id == c
    ensures forall k :: k in r.capabilities <==> Reaches(Influence(s, target), target, k) && k in s.capabilities
    ensures forall m :: m in r.models <==>
      Reaches(Influence(s, target), target, m) && exists i :: 0 <= i < |s.models| && s.models[i].id == m
    ensures forall q :: q in r.requirements <==> Touched(s, target, seen, q)
    ensures forall e :: e in r.evidence <==>
      exists i :: 0 <= i < |s.evidence| && s.evidence[i].id == e && Concerns(s, target, seen, s.evidence[i])
  {
    hide Reaches, Influence, Touched;
    var reached := Spread(s, target);
    var raised := RaiseRequirements(s, target, reached);
    seen, reqs := reached, raised;
    TouchedAreRequirements(s, target, reached);
    r := Impact(Kept(ComponentIds(s.components), reached), Kept(s.capabilities, reached),
                Kept(ModelIds(s.models), reached),
      Kept(RequirementIds(s.requirements), raised), Invalidated(s.evidence, raised, reached));
  }

  function ComponentIds(cs: seq<Component>): (r: seq<Id>)
    ensures forall x :: x in r <==> exists i :: 0 <= i < |cs| && cs[i].id == x
  {
    var r := seq(|cs|, i requires 0 <= i < |cs| => cs[i].id);
    assert forall i :: 0 <= i < |cs| ==> r[i] == cs[i].id;
    r
  }

  function ModelIds(ms: seq<DataModel>): (r: seq<Id>)
    ensures forall x :: x in r <==> exists i :: 0 <= i < |ms| && ms[i].id == x
  {
    var r := seq(|ms|, i requires 0 <= i < |ms| => ms[i].id);
    assert forall i :: 0 <= i < |ms| ==> r[i] == ms[i].id;
    r
  }

  function RequirementIds(rs: seq<Requirement>): (r: seq<Id>)
    ensures forall x :: x in r <==> exists i :: 0 <= i < |rs| && rs[i].id == x
  {
    var r := seq(|rs|, i requires 0 <= i < |rs| => rs[i].id);
    assert forall i :: 0 <= i < |rs| ==> r[i] == rs[i].id;
    r
  }

  lemma TouchedAreRequirements(s: Spec, target: Id, seen: set<Id>)
    ensures forall q :: Touched(s, target, seen, q) ==>
      exists i :: 0 <= i < |s.requirements| && s.requirements[i].id == q
  {
    hide Parents;
    forall q | Touched(s, target, seen, q) ensures exists i :: 0 <= i < |s.requirements| && s.requirements[i].id == q {
      var p :| Chain(s, target, seen, p) && p[|p| - 1] == q;
      if |p| > 1 { assert Raises(s, p[|p| - 2], p[|p| - 2 + 1]); }
    }
  }

  // ----- what influences what -----

  /** A change to `x` reaches `y`: components that require it, or that provide the changed element; models
      derived from it; what a component provides and owns; and the owner of a model. */
  ghost predicate Influences(s: Spec, target: Id, x: Id, y: Id) {
    || (exists c :: c in s.components && c.id == y && (x in c.required || (x == target && x in c.provided)))
    || (exists m :: m in s.models && m.id == y && x in m.derivedFrom)
    || (exists c :: c in s.components && c.id == x && (y in c.provided || y in c.owned))
    || (exists m :: m in s.models && m.id == x && m.owner == y)
  }

  lemma {:induction false} ConsumersAre(cs: seq<Component>, target: Id, x: Id, y: Id)
    ensures y in Consumers(cs, target, x) <==>
      exists c :: c in cs && c.id == y && (x in c.required || (x == target && x in c.provided))
  {
    if cs != [] {
      ConsumersAre(cs[1..], target, x, y);
      assert cs == [cs[0]] + cs[1..];
    }
  }

  lemma {:induction false} DerivedAre(ms: seq<DataModel>, x: Id, y: Id)
    ensures y in Derived(ms, x) <==> exists m :: m in ms && m.id == y && x in m.derivedFrom
  {
    if ms != [] {
      DerivedAre(ms[1..], x, y);
      assert ms == [ms[0]] + ms[1..];
    }
  }

  lemma {:induction false} PartsAre(cs: seq<Component>, x: Id, y: Id)
    ensures y in Parts(cs, x) <==> exists c :: c in cs && c.id == x && (y in c.provided || y in c.owned)
  {
    if cs != [] {
      PartsAre(cs[1..], x, y);
      assert cs == [cs[0]] + cs[1..];
    }
  }

  lemma {:induction false} OwnersAre(ms: seq<DataModel>, x: Id, y: Id)
    ensures y in Owners(ms, x) <==> exists m :: m in ms && m.id == x && m.owner == y
  {
    if ms != [] {
      OwnersAre(ms[1..], x, y);
      assert ms == [ms[0]] + ms[1..];
    }
  }

  lemma NextInfluences(s: Spec, target: Id, x: Id, y: Id)
    ensures y in Next(s, target, x) <==> Influences(s, target, x, y)
  {
    ConsumersAre(s.components, target, x, y);
    DerivedAre(s.models, x, y);
    PartsAre(s.components, x, y);
    OwnersAre(s.models, x, y);
  }

  /** Each element of the list influences the next. */
  ghost predicate InfluenceChain(s: Spec, target: Id, p: seq<Id>) {
    p != [] && p[0] == target && forall i :: 0 <= i < |p| - 1 ==> Influences(s, target, p[i], p[i + 1])
  }

  lemma {:induction false} ChainIsWalk(s: Spec, target: Id, p: seq<Id>)
    requires InfluenceChain(s, target, p)
    ensures Walk(Influence(s, target), p) && p[|p| - 1] in Universe(s, target)
    decreases |p|
  {
    hide Influences, Universe, Next;
    if |p| == 1 {
      TargetInside(s, target);
    } else {
      var n := |p| - 1;
      ChainIsWalk(s, target, p[..n]);
      assert Influences(s, target, p[n - 1], p[n - 1 + 1]);
      NextInfluences(s, target, p[n - 1], p[n]);
      NextInside(s, target, p[n - 1], p[n]);
      forall i | 0 <= i < n ensures Edge(Influence(s, target), p[i], p[i + 1]) {
        if i < n - 1 { assert p[..n][i] == p[i] && p[..n][i + 1] == p[i + 1]; }
      }
    }
  }

  lemma TargetInside(s: Spec, target: Id)
    ensures target in Universe(s, target)
  {
  }

  /** A change reaches an element exactly along a chain of such influences. */
  lemma ReachedExactly(s: Spec, target: Id, x: Id)
    ensures Reaches(Influence(s, target), target, x) <==>
      exists p :: InfluenceChain(s, target, p) && p[|p| - 1] == x
  {
    hide Influences, Universe, Next;
    var g := Influence(s, target);
    if Reaches(g, target, x) {
      var p :| WalkFromTo(g, p, target, x);
      forall i | 0 <= i < |p| - 1 ensures Influences(s, target, p[i], p[i + 1]) {
        assert Edge(g, p[i], p[i + 1]);
        NextInfluences(s, target, p[i], p[i + 1]);
      }
      assert InfluenceChain(s, target, p);
    }
    if p :| InfluenceChain(s, target, p) && p[|p| - 1] == x {
      ChainIsWalk(s, target, p);
      assert WalkFromTo(g, p, target, x);
    }
  }

  /** A requirement is raised by those it depends on and those it refines, and touched directly if its
      target is reached or is the system, or if it is the changed element. */
  lemma RequirementsAreTouchedBy(s: Spec, target: Id, seen: set<Id>, x: Id, y: Id)
    ensures Raises(s, x, y) <==> exists r :: r in s.requirements && r.id == y && (x in r.dependsOn || x in r.refined)
    ensures Base(s, target, seen, y) <==>
      exists r :: r in s.requirements && r.id == y && (r.target in seen || r.target == s.system || y == target)
  {
    if r :| r in s.requirements && r.id == y && (x in r.dependsOn || x in r.refined) {
      var i :| 0 <= i < |s.requirements| && s.requirements[i] == r;
      assert x in Parents(s.requirements[i]);
    }
    if r :| r in s.requirements && r.id == y && (r.target in seen || r.target == s.system || y == target) {
      var i :| 0 <= i < |s.requirements| && s.requirements[i] == r;
    }
  }
}
