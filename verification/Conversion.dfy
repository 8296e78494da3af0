/** Conversion classification of projection plans (cli/src/modelable/conversion_plan.py). */
module Conversion {
  import opened Text
  import opened Ordering

  datatype Kind = Direct | Computed

  /** A direct field is read from the field `source` of the relation `alias`. */
  datatype Field = Field(name: string, kind: Kind, alias: string, source: string)

  /** A relation's alias and, unless it did not resolve, its field names. */
  datatype Relation = Relation(alias: string, fields: Option<seq<string>>)

  datatype Plan = Plan(source: Relation, joins: seq<Relation>, fields: seq<Field>)

  datatype Classification = TotalReversible | TotalIrreversible | PartialFallible | Impossible

  datatype Conversion = Conversion(classification: Classification, fields: seq<string>, hookRequired: bool)

  function Names(fields: seq<Field>): (r: seq<string>)
    ensures |r| == |fields| && forall i :: 0 <= i < |r| ==> r[i] == fields[i].name
  {
    seq(|fields|, i requires 0 <= i < |fields| => fields[i].name)
  }

  function Sources(fields: seq<Field>): (r: seq<string>)
    ensures |r| == |fields| && forall i :: 0 <= i < |r| ==> r[i] == fields[i].source
  {
    seq(|fields|, i requires 0 <= i < |fields| => fields[i].source)
  }

  ghost predicate AllDirect(fields: seq<Field>) {
    forall i :: 0 <= i < |fields| ==> fields[i].kind.Direct?
  }

  function SetOf(names: seq<string>): set<string> { set n | n in names }

  /** What the classification says about names alone. */
  ghost predicate Classified(source: seq<string>, fields: seq<Field>, c: Classification) {
    var known, mapped := SetOf(source), SetOf(Sources(fields));
    match c
    case PartialFallible => fields != [] && !AllDirect(fields)
    case Impossible => fields == [] || (AllDirect(fields) && !(mapped <= known))
    case TotalReversible => fields != [] && AllDirect(fields) && mapped == known && SetOf(Names(fields)) == known
    case TotalIrreversible =>
      fields != [] && AllDirect(fields) && mapped <= known && !(mapped == known && SetOf(Names(fields)) == known)
  }

  /** Fails only for an unresolved source; a hook is asked for unless every source field is read directly. */
  method BuildConversionPlan(plan: Plan) returns (r: Option<Conversion>)
    ensures r.None? <==> plan.source.fields.None?
    ensures r.Some? ==> Classified(plan.source.fields.value, plan.fields, r.value.classification)
    ensures r.Some? ==> r.value.fields == Names(plan.fields)
    ensures r.Some? ==> (r.value.hookRequired <==>
      r.value.classification.PartialFallible? || r.value.classification.Impossible?)
  {
    if plan.source.fields.None? { return None; }
    var names := Names(plan.fields);
    if plan.fields == [] { return Some(Conversion(Impossible, [], true)); }
    var sourceNames := SetOf(plan.source.fields.value);
    var mapped: set<string> := {};
    var i := 0;
    while i < |plan.fields|
      invariant 0 <= i <= |plan.fields|
      invariant forall k :: 0 <= k < i ==> plan.fields[k].kind.Direct?
      invariant mapped == set n | n in Sources(plan.fields)[..i]
    {
      if plan.fields[i].kind != Direct { return Some(Conversion(PartialFallible, names, true)); }
      TakeOneMore(Sources(plan.fields), i);
      mapped := mapped + {plan.fields[i].source};
      i := i + 1;
    }
    TakeAll(Sources(plan.fields));
    if !(mapped <= sourceNames) { return Some(Conversion(Impossible, names, true)); }
    if mapped == sourceNames && SetOf(names) == sourceNames {
      return Some(Conversion(TotalReversible, names, false));
    }
    return Some(Conversion(TotalIrreversible, names, false));
  }

  // ----- the conversion itself -----

  /** The loop over the fields that looks for a repeated name. */
  method CheckNames(names: seq<string>) returns (ok: bool)
    ensures ok <==> NoDuplicates(names)
  {
    var seen: set<string> := {};
    var i := 0;
    while i < |names|
      invariant 0 <= i <= |names| && NoDuplicates(names[..i])
      invariant seen == set n | n in names[..i]
    {
      TakeOneMore(names, i);
      if names[i] in seen {
        var k :| 0 <= k < i && names[..i][k] == names[i];
        assert names[k] == names[i];
        return false;
      }
      seen := seen + {names[i]};
      i := i + 1;
    }
    TakeAll(names);
    return true;
  }

  function Relations(plan: Plan): seq<Relation> { [plan.source] + plan.joins }

  function Aliases(relations: seq<Relation>): (r: seq<string>)
    ensures |r| == |relations| && forall i :: 0 <= i < |r| ==> r[i] == relations[i].alias
  {
    seq(|relations|, i requires 0 <= i < |relations| => relations[i].alias)
  }

  /** The names a resolved relation declares are distinct. */
  ghost predicate ProperRelation(r: Relation) { r.fields.Some? ==> NoDuplicates(r.fields.value) }

  /** The relation has the field's alias, and its source field unless it did not resolve. */
  predicate Provides(r: Relation, f: Field) {
    r.alias == f.alias && (r.fields.Some? ==> f.source in r.fields.value)
  }

  /** A direct field is provided by one of the relations. */
  predicate HasSource(relations: seq<Relation>, f: Field) {
    f.kind.Direct? ==> exists k :: 0 <= k < |relations| && Provides(relations[k], f)
  }

  /** The plans that validation lets through, as far as names and aliases go. */
  ghost predicate WellFormedPlan(plan: Plan) {
    var relations := Relations(plan);
    && (forall k :: 0 <= k < |relations| ==> ProperRelation(relations[k]))
    && NoDuplicates(Names(plan.fields)) && NoDuplicates(Aliases(relations))
    && forall i :: 0 <= i < |plan.fields| ==> HasSource(relations, plan.fields[i])
  }

  /** The dictionary of relations by alias holds all of them. */
  ghost predicate Indexed(relations: seq<Relation>, index: map<string, Relation>) {
    && (forall a :: a in index ==> index[a] in relations && index[a].alias == a)
    && forall k :: 0 <= k < |relations| ==> relations[k].alias in index && index[relations[k].alias] == relations[k]
  }

  lemma IndexedOneMore(relations: seq<Relation>, i: nat, index: map<string, Relation>)
    requires i < |relations| && Indexed(relations[..i], index) && NoDuplicates(Aliases(relations[..i]))
    ensures relations[i].alias in index ==> !NoDuplicates(Aliases(relations))
    ensures relations[i].alias !in index ==>
      Indexed(relations[..i + 1], index[relations[i].alias := relations[i]]) &&
      NoDuplicates(Aliases(relations[..i + 1]))
  {
    TakeOneMore(relations, i);
    var all := Aliases(relations);
    assert forall k :: 0 <= k < i ==> relations[..i][k] == relations[k];
    if relations[i].alias in index {
      var k :| 0 <= k < i && relations[..i][k] == index[relations[i].alias];
      assert all[k] == all[i];
    }
  }

  /** The loop that indexes relations and looks for a repeated alias. */
  method IndexRelations(relations: seq<Relation>) returns (r: Option<map<string, Relation>>)
    ensures r.Some? <==> NoDuplicates(Aliases(relations))
    ensures r.Some? ==> Indexed(relations, r.value)
  {
    hide NoDuplicates, Indexed;
    var index: map<string, Relation> := map[];
    var i := 0;
    assert Indexed([], index) && NoDuplicates(Aliases([])) by { NothingIndexed(); }
    while i < |relations|
      invariant 0 <= i <= |relations| && Indexed(relations[..i], index) && NoDuplicates(Aliases(relations[..i]))
    {
      IndexedOneMore(relations, i, index);
      if relations[i].alias in index { return None; }
      index := index[relations[i].alias := relations[i]];
      i := i + 1;
    }
    TakeAll(relations);
    return Some(index);
  }

  lemma NothingIndexed()
    ensures Indexed([], map[]) && NoDuplicates(Aliases([]))
  {
  }

  /** A field is provided by some relation exactly when it is by the one of its alias. */
  lemma SourceLookup(relations: seq<Relation>, index: map<string, Relation>, f: Field)
    requires Indexed(relations, index) && f.kind.Direct?
    ensures HasSource(relations, f) <==> f.alias in index && Provides(index[f.alias], f)
  {
    if f.alias in index && Provides(index[f.alias], f) {
      var k :| 0 <= k < |relations| && relations[k] == index[f.alias];
      assert Provides(relations[k], f);
    }
  }

  /** The part of plan validation that looks at names and aliases, joins included. */
  method ValidateFields(plan: Plan) returns (ok: bool)
    ensures ok <==> WellFormedPlan(plan)
  {
    hide NoDuplicates, HasSource, Indexed, Provides;
    var relations := Relations(plan);
    var k := 0;
    while k < |relations|
      invariant 0 <= k <= |relations|
      invariant forall j :: 0 <= j < k ==> ProperRelation(relations[j])
    {
      if relations[k].fields.Some? {
        ok := CheckNames(relations[k].fields.value);
        if !ok { return; }
      }
      k := k + 1;
    }
    ok := CheckNames(Names(plan.fields));
    if !ok { return; }
    var index := IndexRelations(relations);
    if index.None? { return false; }
    ok := CheckSources(plan.fields, relations, index.value);
  }

  /** The loop that looks each direct field up. */
  method CheckSources(fields: seq<Field>, relations: seq<Relation>, index: map<string, Relation>) returns (ok: bool)
    requires Indexed(relations, index)
    ensures ok <==> forall i :: 0 <= i < |fields| ==> HasSource(relations, fields[i])
  {
    hide Indexed;
    var i := 0;
    while i < |fields|
      invariant 0 <= i <= |fields|
      invariant forall j :: 0 <= j < i ==> HasSource(relations, fields[j])
    {
      var field := fields[i];
      if field.kind == Direct {
        SourceLookup(relations, index, field);
        if field.alias !in index { return false; }
        var selected := index[field.alias];
        if selected.fields.Some? && field.source !in selected.fields.value { return false; }
        assert Provides(selected, field) by { IndexedAlias(relations, index, field.alias); }
      }
      i := i + 1;
    }
    return true;
  }

  lemma IndexedAlias(relations: seq<Relation>, index: map<string, Relation>, alias: string)
    requires Indexed(relations, index) && alias in index
    ensures index[alias].alias == alias
  {
  }

  /** A record of a model: a value for each of its fields. */
  type Record<V> = map<string, V>

  /** A valid plan whose source resolved: what conversion is defined for. */
  ghost predicate Validated(plan: Plan) { plan.source.fields.Some? && WellFormedPlan(plan) }

  /** What is read directly from the source is one of its fields, and names are distinct. */
  lemma ValidatedNames(plan: Plan)
    requires Validated(plan)
    ensures NoDuplicates(plan.source.fields.value) && NoDuplicates(Names(plan.fields))
    ensures forall i ::
      0 <= i < |plan.fields| && plan.fields[i].alias == plan.source.alias && plan.fields[i].kind.Direct? ==>
        plan.fields[i].source in plan.source.fields.value
  {
    var relations := Relations(plan);
    assert ProperRelation(relations[0]);
    forall i | 0 <= i < |plan.fields| && plan.fields[i].alias == plan.source.alias && plan.fields[i].kind.Direct?
      ensures plan.fields[i].source in plan.source.fields.value
    {
      assert HasSource(relations, plan.fields[i]);
      var k :| 0 <= k < |relations| && Provides(relations[k], plan.fields[i]);
      var aliases := Aliases(relations);
      assert aliases[k] == plan.source.alias == aliases[0];
      assert k == 0;
    }
  }

  function Known(plan: Plan): set<string>
    requires plan.source.fields.Some?
  {
    SetOf(plan.source.fields.value)
  }

  /** What surrounds a source record: the joined records, and what computed fields make of it. */
  datatype Context<!V> = Context(joined: (string, string) -> V, compute: (string, Record<V>) -> V)

  /** What a field holds. */
  function Read<V>(alias: string, f: Field, record: Record<V>, context: Context<V>): V {
    if f.kind.Computed? then context.compute(f.name, record)
    else if f.alias == alias && f.source in record then record[f.source]
    else context.joined(f.alias, f.source)
  }

  /** The induced map on records. */
  function Convert<V>(alias: string, fields: seq<Field>, record: Record<V>, context: Context<V>): Record<V> {
    if fields == [] then map[]
    else
      var n := |fields| - 1;
      Convert(alias, fields[..n], record, context)[fields[n].name := Read(alias, fields[n], record, context)]
  }

  lemma NamesOfPrefix(fields: seq<Field>)
    requires fields != [] && NoDuplicates(Names(fields))
    ensures NoDuplicates(Names(fields[..|fields| - 1]))
    ensures SetOf(Names(fields)) == SetOf(Names(fields[..|fields| - 1])) + {fields[|fields| - 1].name}
    ensures forall i :: 0 <= i < |fields| - 1 ==> fields[i].name != fields[|fields| - 1].name
  {
    var n := |fields| - 1;
    var all, init := Names(fields), Names(fields[..n]);
    assert forall i :: 0 <= i < n ==> init[i] == all[i];
    assert all == init + [fields[n].name];
    assert forall i :: 0 <= i < n ==> all[i] != all[n];
  }

  lemma {:induction false} ConvertAt<V>(
    alias: string, fields: seq<Field>, record: Record<V>, context: Context<V>)
    requires NoDuplicates(Names(fields))
    ensures Convert(alias, fields, record, context).Keys == SetOf(Names(fields))
    ensures forall i :: 0 <= i < |fields| ==>
      var converted := Convert(alias, fields, record, context);
      fields[i].name in converted && converted[fields[i].name] == Read(alias, fields[i], record, context)
  {
    hide Read, SetOf, NoDuplicates;
    if fields == [] {
      assert SetOf(Names(fields)) == {} by { EmptySet(); }
    } else {
      NamesOfPrefix(fields);
      ConvertAt(alias, fields[..|fields| - 1], record, context);
    }
  }

  lemma EmptySet()
    ensures SetOf([]) == {}
  {
  }

  /** Equal readings make equal records. */
  lemma {:induction false} ConvertSame<V>(
    alias: string, fields: seq<Field>, a: Record<V>, b: Record<V>, context: Context<V>)
    requires forall i :: 0 <= i < |fields| ==> Read(alias, fields[i], a, context) == Read(alias, fields[i], b, context)
    ensures Convert(alias, fields, a, context) == Convert(alias, fields, b, context)
  {
    hide Read;
    if fields != [] { ConvertSame(alias, fields[..|fields| - 1], a, b, context); }
  }

  /** Some target field is this field of the source. */
  ghost predicate Kept(plan: Plan, s: string) {
    exists i :: 0 <= i < |plan.fields| && plan.fields[i].kind.Direct? && plan.fields[i].alias == plan.source.alias &&
      plan.fields[i].source == s
  }

  ghost predicate Distinguishes<V>(plan: Plan, a: Record<V>, b: Record<V>, context: Context<V>) {
    Convert(plan.source.alias, plan.fields, a, context) == Convert(plan.source.alias, plan.fields, b, context) ==>
      a == b
  }

  /** Different source records stay different, whatever they are joined with and whatever the
      computed fields compute. */
  ghost predicate Lossless<V(!new)>(plan: Plan)
    requires plan.source.fields.Some?
  {
    forall a: Record<V>, b: Record<V>, context: Context<V> ::
      a.Keys == Known(plan) && b.Keys == Known(plan) ==> Distinguishes(plan, a, b, context)
  }

  lemma KeptDistinguishes<V>(plan: Plan, a: Record<V>, b: Record<V>, context: Context<V>)
    requires Validated(plan) && a.Keys == Known(plan) && b.Keys == Known(plan)
    requires forall s :: s in Known(plan) ==> Kept(plan, s)
    ensures Distinguishes(plan, a, b, context)
  {
    hide NoDuplicates, SetOf;
    ConvertAt(plan.source.alias, plan.fields, a, context);
    ConvertAt(plan.source.alias, plan.fields, b, context);
    if Convert(plan.source.alias, plan.fields, a, context) == Convert(plan.source.alias, plan.fields, b, context) {
      forall s | s in a ensures a[s] == b[s] {
        assert Kept(plan, s);
        var i :| 0 <= i < |plan.fields| && plan.fields[i].kind.Direct? && plan.fields[i].alias == plan.source.alias &&
          plan.fields[i].source == s;
        assert Read(plan.source.alias, plan.fields[i], a, context) == a[s];
      }
      assert a == b;
    }
  }

  lemma DroppedConfuses<V>(plan: Plan, s: string, x: V, y: V) returns (a: Record<V>, b: Record<V>, context: Context<V>)
    requires plan.source.fields.Some? && s in Known(plan) && !Kept(plan, s) && x != y
    ensures a.Keys == Known(plan) && b.Keys == Known(plan) && !Distinguishes(plan, a, b, context)
  {
    hide SetOf;
    a := map n | n in Known(plan) :: x;
    b := a[s := y];
    context := Context((alias, name) => x, (name, record) => x);
    ConvertSame(plan.source.alias, plan.fields, a, b, context);
    assert a[s] != b[s];
  }

  /** If fields can hold two values, a conversion is sure to lose nothing of its source exactly when
      every source field is read directly, under the source's own alias, by some target field. */
  lemma LosslessExactly<V(!new)>(plan: Plan, x: V, y: V)
    requires Validated(plan) && x != y
    ensures Lossless<V>(plan) <==> forall s :: s in Known(plan) ==> Kept(plan, s)
  {
    hide Kept, Distinguishes, Validated, SetOf;
    assert plan.source.fields.Some? by { Resolved(plan); }
    if forall s :: s in Known(plan) ==> Kept(plan, s) {
      forall a: Record<V>, b: Record<V>, context: Context<V> |
        a.Keys == Known(plan) && b.Keys == Known(plan)
        ensures Distinguishes(plan, a, b, context)
      {
        KeptDistinguishes(plan, a, b, context);
      }
    }
    if s :| s in Known(plan) && !Kept(plan, s) { var a, b, context := DroppedConfuses(plan, s, x, y); }
  }

  lemma Resolved(plan: Plan)
    requires Validated(plan)
    ensures plan.source.fields.Some?
  {
  }

  ghost predicate SingleSource(plan: Plan) {
    forall i :: 0 <= i < |plan.fields| ==> plan.fields[i].alias == plan.source.alias
  }

  /** The way back: every source field is read from the target field that holds it. */
  function Back(alias: string, fields: seq<Field>): (r: seq<Field>)
    ensures |r| == |fields| && forall i :: 0 <= i < |r| ==>
      r[i] == Field(fields[i].source, Direct, alias, fields[i].name)
  {
    seq(|fields|, i requires 0 <= i < |fields| => Field(fields[i].source, Direct, alias, fields[i].name))
  }

  /** A reversible plan uses each source field once. */
  lemma ReversiblePairsNames(plan: Plan)
    requires Validated(plan) && Classified(plan.source.fields.value, plan.fields, TotalReversible)
    ensures NoDuplicates(Sources(plan.fields)) && |plan.fields| == |plan.source.fields.value|
    ensures SetOf(Sources(plan.fields)) == SetOf(Names(plan.fields)) == Known(plan)
  {
    ValidatedNames(plan);
    DistinctCount(plan.source.fields.value);
    DistinctCount(Names(plan.fields));
    DistinctCount(Sources(plan.fields));
    assert SetOf(Names(plan.fields)) == set x | x in Names(plan.fields);
    assert SetOf(Sources(plan.fields)) == set x | x in Sources(plan.fields);
  }

  /** A plan over one source that is called totally reversible pairs source and target names one to
      one, and reading the fields back restores every source record. */
  lemma ReversibleMeansInvertible<V>(plan: Plan, record: Record<V>, context: Context<V>)
    requires Validated(plan) && SingleSource(plan) && Classified(plan.source.fields.value, plan.fields, TotalReversible)
    requires record.Keys == Known(plan)
    ensures NoDuplicates(Sources(plan.fields)) && |plan.fields| == |plan.source.fields.value|
    ensures var converted := Convert(plan.source.alias, plan.fields, record, context);
      converted.Keys == Known(plan) &&
      Convert(plan.source.alias, Back(plan.source.alias, plan.fields), converted, context) == record
  {
    hide Classified, AllDirect, SingleSource, Validated, NoDuplicates, SetOf, Convert, Back, Names, Sources;
    ReversibleIsDirect(plan);
    ReversiblePairsNames(plan);
    BackNames(plan.source.alias, plan.fields);
    var back := Back(plan.source.alias, plan.fields);
    var converted := Convert(plan.source.alias, plan.fields, record, context);
    ConvertKeys(plan.source.alias, plan.fields, record, context);
    ConvertKeys(plan.source.alias, back, converted, context);
    var restored := Convert(plan.source.alias, back, converted, context);
    forall s | s in record ensures restored[s] == record[s] { RestoredAt(plan, record, context, s); }
    assert restored == record;
  }

  lemma ReversibleIsDirect(plan: Plan)
    requires Validated(plan) && Classified(plan.source.fields.value, plan.fields, TotalReversible)
    ensures AllDirect(plan.fields) && NoDuplicates(Names(plan.fields))
  {
  }

  lemma BackNames(alias: string, fields: seq<Field>)
    ensures Names(Back(alias, fields)) == Sources(fields)
  {
  }

  lemma ConvertKeys<V>(alias: string, fields: seq<Field>, record: Record<V>, context: Context<V>)
    requires NoDuplicates(Names(fields))
    ensures Convert(alias, fields, record, context).Keys == SetOf(Names(fields))
  {
    hide NoDuplicates, SetOf, Convert;
    ConvertAt(alias, fields, record, context);
  }

  lemma RestoredAt<V>(plan: Plan, record: Record<V>, context: Context<V>, s: string)
    requires AllDirect(plan.fields) && SingleSource(plan)
    requires NoDuplicates(Names(plan.fields)) && NoDuplicates(Sources(plan.fields))
    requires s in record && s in SetOf(Sources(plan.fields))
    ensures var converted := Convert(plan.source.alias, plan.fields, record, context);
      var restored := Convert(plan.source.alias, Back(plan.source.alias, plan.fields), converted, context);
      s in restored && restored[s] == record[s]
  {
    hide NoDuplicates, SetOf, Convert;
    var fields, alias := plan.fields, plan.source.alias;
    var back := Back(alias, fields);
    assert Names(back) == Sources(fields);
    ConvertAt(alias, fields, record, context);
    ConvertAt(alias, back, Convert(alias, fields, record, context), context);
    var i := IndexOfSource(fields, s);
    assert back[i].name == s && fields[i].kind.Direct? && fields[i].alias == alias;
  }

  lemma IndexOfSource(fields: seq<Field>, s: string) returns (i: nat)
    requires s in SetOf(Sources(fields))
    ensures i < |fields| && fields[i].source == s
  {
    i :| 0 <= i < |fields| && Sources(fields)[i] == s;
  }

  lemma SingleSourceKeeps(plan: Plan, s: string)
    requires SingleSource(plan) && AllDirect(plan.fields)
    ensures Kept(plan, s) <==> s in SetOf(Sources(plan.fields))
  {
    if Kept(plan, s) {
      var i :| 0 <= i < |plan.fields| && plan.fields[i].kind.Direct? && plan.fields[i].alias == plan.source.alias &&
        plan.fields[i].source == s;
      assert Sources(plan.fields)[i] == s;
    }
    if s in SetOf(Sources(plan.fields)) { var i := IndexOfSource(plan.fields, s); }
  }

  /** Over one source the lossless direct plans are the reversible ones and, among those called
      irreversible, the ones that read every source field and merely rename. */
  lemma LosslessByClass<V(!new)>(plan: Plan, c: Classification, x: V, y: V)
    requires x != y && Validated(plan) && SingleSource(plan) && Classified(plan.source.fields.value, plan.fields, c)
    requires c.TotalReversible? || c.TotalIrreversible?
    ensures Lossless<V>(plan) <==>
      (c.TotalReversible? || (SetOf(Sources(plan.fields)) == Known(plan) && SetOf(Names(plan.fields)) != Known(plan)))
  {
    hide Lossless, Validated, SingleSource;
    assert plan.source.fields.Some? by { Resolved(plan); }
    LosslessExactly(plan, x, y);
    forall s ensures Kept(plan, s) <==> s in SetOf(Sources(plan.fields)) { SingleSourceKeeps(plan, s); }
  }

  /** The classification compares names only: a field read from a join counts as the source field
      of that name, so a plan with joins can be called totally reversible and drop its source. */
  lemma JoinedFieldCountsAsSource()
    ensures
      var plan := Plan(Relation("s", Some(["id"])), [Relation("j", Some(["id"]))], [Field("id", Direct, "j", "id")]);
      Validated(plan) && Classified(plan.source.fields.value, plan.fields, TotalReversible) && !Lossless<bool>(plan)
  {
    var plan := Plan(Relation("s", Some(["id"])), [Relation("j", Some(["id"]))], [Field("id", Direct, "j", "id")]);
    assert Names(plan.fields) == ["id"] && Sources(plan.fields) == ["id"];
    assert Aliases(Relations(plan)) == ["s", "j"] && Provides(Relations(plan)[1], plan.fields[0]);
    assert !Kept(plan, "id");
    assert "id" in Known(plan);
    LosslessExactly(plan, false, true);
  }
}
