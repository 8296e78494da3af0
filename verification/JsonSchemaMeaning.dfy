/** What each keyword of the schema language means, alone and beside another, for the acceptance of
    schemas and of values. */
module JsonSchemaMeaning {
  import opened Text
  import opened Ordering
  import opened Json
  import opened JsonSchema

  /** The schema with one keyword. */
  function One(key: string, argument: Value): Value { Obj([Member(key, argument)]) }

  /** The schema with two keywords. */
  function Two(key: string, argument: Value, other: string, second: Value): Value {
    Obj([Member(key, argument), Member(other, second)])
  }

  /** What a schema says, keyword by keyword. */
  datatype Keywords = Keywords(
    typing: Option<Value>, constant: Option<Value>, choices: Option<Value>, properties: Option<Value>,
    required: Option<Value>, items: Option<Value>, minItems: Option<Value>, maxItems: Option<Value>,
    minimum: Option<Value>, maximum: Option<Value>, pattern: Option<Value>, additional: Option<Value>)

  const NOTHING := Keywords(None, None, None, None, None, None, None, None, None, None, None, None)

  ghost function Said(s: Value): Keywords {
    Keywords(Get(s, "type"), Get(s, "const"), Get(s, "enum"), Get(s, "properties"), Get(s, "required"),
             Get(s, "items"), Get(s, "minItems"), Get(s, "maxItems"), Get(s, "minimum"), Get(s, "maximum"),
             Get(s, "pattern"), Get(s, "additionalProperties"))
  }

  lemma GetOne(key: string, argument: Value, k: string)
    ensures Get(One(key, argument), k) == if k == key then Some(argument) else None
  {
    assert [Member(key, argument)][1..] == [];
  }

  lemma GetTwo(key: string, argument: Value, other: string, second: Value, k: string)
    ensures Get(Two(key, argument, other, second), k) ==
      if k == key then Some(argument) else if k == other then Some(second) else None
  {
    var ms, rest := [Member(key, argument), Member(other, second)], [Member(other, second)];
    assert ms[1..] == rest && rest[1..] == [];
    assert Find(rest, k) == if other == k then Some(second) else Find([], k);
    assert Find(ms, k) == if key == k then Some(argument) else Find(rest, k);
  }

  /** Keywords of one length that differ. */
  lemma KeywordsDiffer()
    ensures "type" != "enum" && "required" != "minItems" && "required" != "maxItems" && "minItems" != "maxItems"
    ensures "minimum" != "maximum" && "minimum" != "pattern" && "maximum" != "pattern"
  {
    assert "type"[0] == 't' && "enum"[0] == 'e' && "required"[0] == 'r' && "minItems"[1] == 'i';
    assert "minItems"[0] == 'm' && "maxItems"[0] == 'm' && "maxItems"[1] == 'a' && "pattern"[0] == 'p';
    assert "minimum"[0] == 'm' && "maximum"[0] == 'm' && "minimum"[1] == 'i' && "maximum"[1] == 'a';
  }

  /** Type names of one length that differ. */
  lemma TypesDiffer()
    ensures "boolean" != "integer" && "number" != "string" && "number" != "object" && "string" != "object"
  {
    assert "boolean"[0] == 'b' && "integer"[0] == 'i';
    assert "number"[0] == 'n' && "string"[0] == 's' && "object"[0] == 'o';
  }

  lemma Alone(key: string, argument: Value)
    ensures forall k :: Get(One(key, argument), k) == if k == key then Some(argument) else None
  {
    forall k ensures Get(One(key, argument), k) == if k == key then Some(argument) else None {
      GetOne(key, argument, k);
    }
  }

  lemma Beside(key: string, argument: Value, other: string, second: Value)
    requires key != other
    ensures Get(Two(key, argument, other, second), key) == Some(argument)
    ensures Get(Two(key, argument, other, second), other) == Some(second)
    ensures forall k :: k != key && k != other ==> Get(Two(key, argument, other, second), k) == None
  {
    forall k ensures k != key && k != other ==> Get(Two(key, argument, other, second), k) == None {
      GetTwo(key, argument, other, second, k);
    }
    GetTwo(key, argument, other, second, key);
    GetTwo(key, argument, other, second, other);
  }

  lemma OneTyping(a: Value)
    ensures Said(One("type", a)) == NOTHING.(typing := Some(a)) && KnownOnly(One("type", a))
  {
    hide Get;
    KeywordsDiffer();
    Alone("type", a);
  }

  lemma OneConstant(a: Value)
    ensures Said(One("const", a)) == NOTHING.(constant := Some(a)) && KnownOnly(One("const", a))
  {
    hide Get;
    KeywordsDiffer();
    Alone("const", a);
  }

  lemma OneChoices(a: Value)
    ensures Said(One("enum", a)) == NOTHING.(choices := Some(a)) && KnownOnly(One("enum", a))
  {
    hide Get;
    KeywordsDiffer();
    Alone("enum", a);
  }

  lemma OneProperties(a: Value)
    ensures Said(One("properties", a)) == NOTHING.(properties := Some(a)) && KnownOnly(One("properties", a))
  {
    hide Get;
    KeywordsDiffer();
    Alone("properties", a);
  }

  lemma OneRequired(a: Value)
    ensures Said(One("required", a)) == NOTHING.(required := Some(a)) && KnownOnly(One("required", a))
  {
    hide Get;
    KeywordsDiffer();
    Alone("required", a);
  }

  lemma OneItems(a: Value)
    ensures Said(One("items", a)) == NOTHING.(items := Some(a)) && KnownOnly(One("items", a))
  {
    hide Get;
    KeywordsDiffer();
    Alone("items", a);
  }

  lemma OneMinItems(a: Value)
    ensures Said(One("minItems", a)) == NOTHING.(minItems := Some(a)) && KnownOnly(One("minItems", a))
  {
    hide Get;
    KeywordsDiffer();
    Alone("minItems", a);
  }

  lemma OneMaxItems(a: Value)
    ensures Said(One("maxItems", a)) == NOTHING.(maxItems := Some(a)) && KnownOnly(One("maxItems", a))
  {
    hide Get;
    KeywordsDiffer();
    Alone("maxItems", a);
  }

  lemma OneMinimum(a: Value)
    ensures Said(One("minimum", a)) == NOTHING.(minimum := Some(a)) && KnownOnly(One("minimum", a))
  {
    hide Get;
    KeywordsDiffer();
    Alone("minimum", a);
  }

  lemma OneMaximum(a: Value)
    ensures Said(One("maximum", a)) == NOTHING.(maximum := Some(a)) && KnownOnly(One("maximum", a))
  {
    hide Get;
    KeywordsDiffer();
    Alone("maximum", a);
  }

  lemma OnePattern(a: Value)
    ensures Said(One("pattern", a)) == NOTHING.(pattern := Some(a)) && KnownOnly(One("pattern", a))
  {
    hide Get;
    KeywordsDiffer();
    Alone("pattern", a);
  }

  lemma OneAdditional(a: Value)
    ensures Said(One("additionalProperties", a)) == NOTHING.(additional := Some(a)) &&
      KnownOnly(One("additionalProperties", a))
  {
    hide Get;
    KeywordsDiffer();
    Alone("additionalProperties", a);
  }

  lemma PropertiesAndAdditional(a: Value, b: Value)
    ensures var s := Two("properties", a, "additionalProperties", b);
      Said(s) == NOTHING.(properties := Some(a), additional := Some(b)) && KnownOnly(s)
  {
    hide Get;
    KeywordsDiffer();
    Beside("properties", a, "additionalProperties", b);
  }

  lemma MinimumAndMaximum(a: Value, b: Value)
    ensures var s := Two("minimum", a, "maximum", b);
      Said(s) == NOTHING.(minimum := Some(a), maximum := Some(b)) && KnownOnly(s)
  {
    hide Get;
    KeywordsDiffer();
    Beside("minimum", a, "maximum", b);
  }

  lemma MinItemsAndMaxItems(a: Value, b: Value)
    ensures var s := Two("minItems", a, "maxItems", b);
      Said(s) == NOTHING.(minItems := Some(a), maxItems := Some(b)) && KnownOnly(s)
  {
    hide Get;
    KeywordsDiffer();
    Beside("minItems", a, "maxItems", b);
  }

  lemma PropertiesOfType(a: Value, b: Value)
    ensures var s := Two("properties", a, "type", b);
      Said(s) == NOTHING.(properties := Some(a), typing := Some(b)) && KnownOnly(s)
  {
    hide Get;
    KeywordsDiffer();
    Beside("properties", a, "type", b);
  }

  lemma RequiredOfType(a: Value, b: Value)
    ensures var s := Two("required", a, "type", b);
      Said(s) == NOTHING.(required := Some(a), typing := Some(b)) && KnownOnly(s)
  {
    hide Get;
    KeywordsDiffer();
    Beside("required", a, "type", b);
  }

  lemma ItemsOfType(a: Value, b: Value)
    ensures var s := Two("items", a, "type", b);
      Said(s) == NOTHING.(items := Some(a), typing := Some(b)) && KnownOnly(s)
  {
    hide Get;
    KeywordsDiffer();
    Beside("items", a, "type", b);
  }

  lemma MinItemsOfType(a: Value, b: Value)
    ensures var s := Two("minItems", a, "type", b);
      Said(s) == NOTHING.(minItems := Some(a), typing := Some(b)) && KnownOnly(s)
  {
    hide Get;
    KeywordsDiffer();
    Beside("minItems", a, "type", b);
  }

  lemma MaxItemsOfType(a: Value, b: Value)
    ensures var s := Two("maxItems", a, "type", b);
      Said(s) == NOTHING.(maxItems := Some(a), typing := Some(b)) && KnownOnly(s)
  {
    hide Get;
    KeywordsDiffer();
    Beside("maxItems", a, "type", b);
  }

  lemma MinimumOfType(a: Value, b: Value)
    ensures var s := Two("minimum", a, "type", b);
      Said(s) == NOTHING.(minimum := Some(a), typing := Some(b)) && KnownOnly(s)
  {
    hide Get;
    KeywordsDiffer();
    Beside("minimum", a, "type", b);
  }

  lemma MaximumOfType(a: Value, b: Value)
    ensures var s := Two("maximum", a, "type", b);
      Said(s) == NOTHING.(maximum := Some(a), typing := Some(b)) && KnownOnly(s)
  {
    hide Get;
    KeywordsDiffer();
    Beside("maximum", a, "type", b);
  }

  lemma PatternOfType(a: Value, b: Value)
    ensures var s := Two("pattern", a, "type", b);
      Said(s) == NOTHING.(pattern := Some(a), typing := Some(b)) && KnownOnly(s)
  {
    hide Get;
    KeywordsDiffer();
    Beside("pattern", a, "type", b);
  }

  lemma AdditionalOfType(a: Value, b: Value)
    ensures var s := Two("additionalProperties", a, "type", b);
      Said(s) == NOTHING.(additional := Some(a), typing := Some(b)) && KnownOnly(s)
  {
    hide Get;
    KeywordsDiffer();
    Beside("additionalProperties", a, "type", b);
  }

  /** An object with keywords only. */
  predicate KnownOnly(s: Value) {
    s.Obj? && forall i :: 0 <= i < |s.members| ==> s.members[i].key in KEYWORDS
  }

  // ----- types and choices -----

  /** The type name that describes the value most closely. */
  function KindOf(v: Value): string {
    match v
    case Null => "null"
    case Bool(_) => "boolean"
    case Int(_) => "integer"
    case Real(_) => "number"
    case Str(_) => "string"
    case Arr(_) => "array"
    case Obj(_) => "object"
  }

  /** A type name admits the values of its kind, and `number` the integers too. */
  lemma TypeMeans(h: Host, name: string, v: Value)
    ensures Validates(h, One("type", Str(name)), v) <==> name == KindOf(v) || (name == "number" && v.Int?)
  {
    hide Get, One, Two;
    OneTyping(Str(name));
    TypesDiffer();
    assert [name][0] == name;
  }

  /** A list of type names admits what one of them does. */
  lemma TypesMean(h: Host, names: seq<string>, v: Value)
    ensures Validates(h, One("type", Arr(Mapped(AsText, names))), v) <==>
      exists i :: 0 <= i < |names| && Validates(h, One("type", Str(names[i])), v)
  {
    var items := Mapped(AsText, names);
    var s := One("type", Arr(items));
    OneTyping(Arr(items));
    assert Mapped(TextOf, items) == names;
    forall i | 0 <= i < |names|
      ensures Validates(h, One("type", Str(names[i])), v) <==> MatchesType(v, names[i])
    {
      TypeMeans(h, names[i], v);
      }
    hide Get, One, Two;
    assert TypesOf(s) == Some(names);
    assert Validates(h, s, v) <==> TypeHolds(s, v);
  }

  function AsText(name: string): Value { Str(name) }

  /** A constant admits exactly the value itself, up to the order of members. */
  lemma ConstMeans(h: Host, choice: Value, v: Value)
    requires WellFormed(choice) && WellFormed(v)
    ensures Validates(h, One("const", choice), v) <==> Same(v, choice)
  {
    CanonicalDecidesSameness(v, choice);
    hide Get, One, Two;
    OneConstant(choice);
  }

  /** Choices admit exactly what is the same as one of them. */
  lemma EnumMeans(h: Host, choices: seq<Value>, v: Value)
    requires WellFormed(Arr(choices)) && WellFormed(v)
    ensures Validates(h, One("enum", Arr(choices)), v) <==> exists i :: 0 <= i < |choices| && Same(v, choices[i])
  {
    hide Canonical, Same, Validates;
    EnumAlone(h, choices, v);
    forall i | 0 <= i < |choices| ensures Canonical(v) == Canonical(choices[i]) <==> Same(v, choices[i]) {
      CanonicalDecidesSameness(v, choices[i]);
    }
  }

  lemma EnumAlone(h: Host, choices: seq<Value>, v: Value)
    ensures Validates(h, One("enum", Arr(choices)), v) <==>
      exists i :: 0 <= i < |choices| && Canonical(v) == Canonical(choices[i])
  {
    hide Get, One, Two, Canonical;
    OneChoices(Arr(choices));
    var s := One("enum", Arr(choices));
    assert ChoiceHolds(s, v) <==> exists i :: 0 <= i < |choices| && Canonical(v) == Canonical(choices[i]);
    hide ChoiceHolds;
    assert Validates(h, s, v) <==> ChoiceHolds(s, v);
  }

  // ----- numbers, texts and lists -----

  /** Bounds apply to numbers only and include themselves. */
  lemma RangeMeans(h: Host, bound: Value, v: Value)
    requires IsNumber(bound)
    ensures Validates(h, One("minimum", bound), v) <==> (IsNumber(v) ==> NumberOf(h, bound) <= NumberOf(h, v))
    ensures Validates(h, One("maximum", bound), v) <==> (IsNumber(v) ==> NumberOf(h, v) <= NumberOf(h, bound))
  {
    hide Get, One, Two;
    OneMinimum(bound);
    OneMaximum(bound);
  }

  /** Sizes apply to lists only and include themselves. */
  lemma SizeMeans(h: Host, n: nat, v: Value)
    ensures Validates(h, One("minItems", Int(n)), v) <==> (v.Arr? ==> n <= |v.items|)
    ensures Validates(h, One("maxItems", Int(n)), v) <==> (v.Arr? ==> |v.items| <= n)
  {
    hide Get, One, Two;
    OneMinItems(Int(n));
    OneMaxItems(Int(n));
  }

  /** Patterns apply to texts only and may be found anywhere in them. */
  lemma PatternMeans(h: Host, pattern: string, v: Value)
    ensures Validates(h, One("pattern", Str(pattern)), v) <==> (v.Str? ==> h.search(pattern, v.text))
  {
    hide Get, One, Two;
    OnePattern(Str(pattern));
  }

  /** The schema of items applies to every item. */
  lemma ItemsMean(h: Host, each: Value, v: Value)
    ensures Validates(h, One("items", each), v) <==>
      (v.Arr? ==> forall i :: 0 <= i < |v.items| ==> Validates(h, each, v.items[i]))
  {
    hide Get, One, Two;
    OneItems(each);
  }

  // ----- objects -----

  lemma {:induction false} FoundAmong(ms: seq<Member>, key: string)
    ensures Find(ms, key).Some? <==> exists i :: 0 <= i < |ms| && ms[i].key == key
  {
  }

  /** Required names must all be there. */
  lemma RequiredMeans(h: Host, names: seq<string>, v: Value)
    ensures Validates(h, One("required", Arr(Mapped(AsText, names))), v) <==>
      (v.Obj? ==> forall name :: name in names ==> exists i :: 0 <= i < |v.members| && v.members[i].key == name)
  {
    hide Validates;
    RequiredAlone(h, names, v);
    if v.Obj? {
      forall name ensures Has(v, name) <==> exists i :: 0 <= i < |v.members| && v.members[i].key == name {
        FoundAmong(v.members, name);
      }
    }
    hide Get, One, Two;
  }

  lemma RequiredAlone(h: Host, names: seq<string>, v: Value)
    ensures Validates(h, One("required", Arr(Mapped(AsText, names))), v) <==>
      (v.Obj? ==> forall name :: name in names ==> Has(v, name))
  {
    var items := Mapped(AsText, names);
    OneRequired(Arr(items));
    hide Get, One, Two;
    assert forall i :: 0 <= i < |names| ==> TextOf(items[i]) == names[i];
  }

  /** Every member of a declared name has the declared schema. */
  ghost predicate Declared(h: Host, ps: seq<Member>, v: Value) {
    v.Obj? ==> forall i, j :: 0 <= i < |v.members| && 0 <= j < |ps| && v.members[i].key == ps[j].key ==>
      Validates(h, ps[j].value, v.members[i].value)
  }

  /** Every member has a declared name. */
  ghost predicate OnlyDeclared(ps: seq<Member>, v: Value) {
    v.Obj? ==> forall i :: 0 <= i < |v.members| ==> exists j :: 0 <= j < |ps| && ps[j].key == v.members[i].key
  }

  /** Every member that has a property's schema has it fulfilled. */
  ghost predicate Fulfilled(h: Host, s: Value, v: Value, i: int)
    requires v.Obj? && 0 <= i < |v.members|
  {
    var child := Property(s, v.members[i].key);
    child.Some? ==> Validates(h, child.value, v.members[i].value)
  }

  lemma MemberDeclared(h: Host, s: Value, ps: seq<Member>, v: Value, i: int)
    requires v.Obj? && DistinctKeys(ps) && Get(s, "properties") == Some(Obj(ps)) && 0 <= i < |v.members|
    ensures Fulfilled(h, s, v, i) <==>
      forall j :: 0 <= j < |ps| && v.members[i].key == ps[j].key ==> Validates(h, ps[j].value, v.members[i].value)
    ensures Property(s, v.members[i].key).Some? <==> exists j :: 0 <= j < |ps| && ps[j].key == v.members[i].key
  {
    hide Validates, Find, Get, Property;
    DeclaredProperty(s, ps, v.members[i].key);
    forall j | 0 <= j < |ps| && v.members[i].key == ps[j].key
      ensures Property(s, v.members[i].key) == Some(ps[j].value)
    {
      PropertyAt(s, ps, j);
    }
  }

  lemma PropertyAt(s: Value, ps: seq<Member>, j: nat)
    requires DistinctKeys(ps) && Get(s, "properties") == Some(Obj(ps)) && j < |ps|
    ensures Property(s, ps[j].key) == Some(ps[j].value)
  {
    FindIs(ps, j);
  }

  lemma ChildrenDeclared(h: Host, s: Value, ps: seq<Member>, v: Value)
    requires v.Obj? && DistinctKeys(ps) && Get(s, "properties") == Some(Obj(ps))
    ensures Declared(h, ps, v) <==> forall i :: 0 <= i < |v.members| ==> Fulfilled(h, s, v, i)
    ensures OnlyDeclared(ps, v) <==> forall i :: 0 <= i < |v.members| ==> Property(s, v.members[i].key).Some?
  {
    hide Validates, Find, Get, Property, Fulfilled;
    if Declared(h, ps, v) {
      forall i | 0 <= i < |v.members| ensures Fulfilled(h, s, v, i) { MemberDeclared(h, s, ps, v, i); }
    }
    if forall i :: 0 <= i < |v.members| ==> Fulfilled(h, s, v, i) {
      forall i, j | 0 <= i < |v.members| && 0 <= j < |ps| && v.members[i].key == ps[j].key
        ensures Validates(h, ps[j].value, v.members[i].value)
      {
        MemberDeclared(h, s, ps, v, i);
      }
    }
    if OnlyDeclared(ps, v) {
      forall i | 0 <= i < |v.members| ensures Property(s, v.members[i].key).Some? { MemberDeclared(h, s, ps, v, i); }
    }
    if forall i :: 0 <= i < |v.members| ==> Property(s, v.members[i].key).Some? {
      forall i | 0 <= i < |v.members| ensures exists j :: 0 <= j < |ps| && ps[j].key == v.members[i].key {
        MemberDeclared(h, s, ps, v, i);
      }
    }
  }

  lemma DeclaredProperty(s: Value, ps: seq<Member>, key: string)
    requires DistinctKeys(ps) && Get(s, "properties") == Some(Obj(ps))
    ensures Property(s, key).Some? <==> exists j :: 0 <= j < |ps| && ps[j].key == key
    ensures Property(s, key).Some? ==>
      exists j :: 0 <= j < |ps| && ps[j].key == key && Property(s, key).value == ps[j].value
  {
    FoundAmong(ps, key);
    if j :| 0 <= j < |ps| && ps[j].key == key { FindIs(ps, j); }
  }

  /** Properties constrain the members of their names, other members are free; unless additional ones are
      ruled out. */
  lemma PropertiesMean(h: Host, ps: seq<Member>, v: Value)
    requires DistinctKeys(ps)
    ensures Validates(h, One("properties", Obj(ps)), v) <==> Declared(h, ps, v)
    ensures Validates(h, Two("properties", Obj(ps), "additionalProperties", Bool(false)), v) <==>
      Declared(h, ps, v) && OnlyDeclared(ps, v)
  {
    var s, t := One("properties", Obj(ps)), Two("properties", Obj(ps), "additionalProperties", Bool(false));
    hide Get, One, Two;
    OneProperties(Obj(ps));
    PropertiesAndAdditional(Obj(ps), Bool(false));
    hide Declared, OnlyDeclared;
    if v.Obj? {
      ChildrenDeclared(h, s, ps, v);
      ChildrenDeclared(h, t, ps, v);
      ObjectValidates(h, s, v);
      ObjectValidates(h, t, v);
      hide Validates, Fulfilled;
    } else {
      NothingDeclared(h, ps, v);
    }
  }

  lemma ObjectValidates(h: Host, s: Value, v: Value)
    requires v.Obj?
    ensures Validates(h, s, v) <==> LevelHolds(h, s, v) && forall i :: 0 <= i < |v.members| ==> Fulfilled(h, s, v, i)
  {
    hide LevelHolds, Property, Get;
    if Validates(h, s, v) {
      forall i | 0 <= i < |v.members| ensures Fulfilled(h, s, v, i) { }
    }
    if LevelHolds(h, s, v) && forall i :: 0 <= i < |v.members| ==> Fulfilled(h, s, v, i) {
      forall i | 0 <= i < |v.members|
        ensures var child := Property(s, v.members[i].key);
          child.Some? ==> Validates(h, child.value, v.members[i].value)
      {
        assert Fulfilled(h, s, v, i);
      }
    }
  }

  lemma NothingDeclared(h: Host, ps: seq<Member>, v: Value)
    requires !v.Obj?
    ensures Declared(h, ps, v) && OnlyDeclared(ps, v)
  {
  }

  // ----- accepted schemas -----

  /** The seven type names. */
  predicate IsTypeName(name: string) {
    name in {"null", "boolean", "integer", "number", "string", "array", "object"}
  }

  /** A type is accepted exactly as one of the seven names, or as a list of some of them without repeats. */
  lemma TypeAccepted(h: Host, argument: Value)
    ensures AcceptedSchema(h, One("type", argument)) <==>
      || (argument.Str? && IsTypeName(argument.text))
      || (argument.Arr? && argument.items != [] && exists names ::
            argument.items == Mapped(AsText, names) && NoDuplicates(names) && forall n :: n in names ==> IsTypeName(n))
  {
    assert forall n :: IsTypeName(n) <==> n in VALUE_TYPES;
    hide IsTypeName;
    OneTyping(argument);
    hide Get, One, Two;
    if argument.Arr? {
      var names := Mapped(TextOf, argument.items);
      if AllTexts(argument.items) { assert argument.items == Mapped(AsText, names); }
      forall other | argument.items == Mapped(AsText, other) ensures names == other && AllTexts(argument.items) { }
    }
  }

  /** A schema with a word that is no keyword is refused. */
  lemma UnknownKeywordRefused(h: Host, key: string, argument: Value)
    requires key !in {
      "type", "const", "enum", "properties", "required", "items", "minItems", "maxItems", "minimum", "maximum",
      "pattern", "additionalProperties"}
    ensures !AcceptedSchema(h, One(key, argument))
  {
    assert [Member(key, argument)][0].key == key;
  }

  /** Bounds are numbers, and the lower is not above the upper. */
  lemma BoundsAcceptedExactly(h: Host, low: Value, high: Value)
    ensures AcceptedSchema(h, One("minimum", low)) <==> IsNumber(low)
    ensures AcceptedSchema(h, One("maximum", high)) <==> IsNumber(high)
    ensures AcceptedSchema(h, Two("minimum", low, "maximum", high)) <==>
      IsNumber(low) && IsNumber(high) && NumberOf(h, low) <= NumberOf(h, high)
  {
    hide Get, One, Two;
    OneMinimum(low);
    OneMaximum(high);
    MinimumAndMaximum(low, high);
  }

  /** Sizes are natural numbers, and the lower is not above the upper. */
  lemma SizesAcceptedExactly(h: Host, least: Value, most: Value)
    ensures AcceptedSchema(h, One("minItems", least)) <==> least.Int? && least.whole >= 0
    ensures AcceptedSchema(h, One("maxItems", most)) <==> most.Int? && most.whole >= 0
    ensures AcceptedSchema(h, Two("minItems", least, "maxItems", most)) <==>
      least.Int? && most.Int? && 0 <= least.whole <= most.whole
  {
    hide Get, One, Two;
    OneMinItems(least);
    OneMaxItems(most);
    MinItemsAndMaxItems(least, most);
  }

  /** A pattern is a text that compiles. */
  lemma PatternAcceptedExactly(h: Host, argument: Value)
    ensures AcceptedSchema(h, One("pattern", argument)) <==> argument.Str? && h.compiles(argument.text)
  {
    hide Get, One, Two;
    OnePattern(argument);
  }

  /** Choices are some, no two of them the same; required names are texts, none empty and none twice. */
  lemma ListsAcceptedExactly(h: Host, items: seq<Value>)
    requires WellFormed(Arr(items))
    ensures AcceptedSchema(h, One("enum", Arr(items))) <==>
      items != [] && forall i, j :: 0 <= i < j < |items| ==> !Same(items[i], items[j])
    ensures AcceptedSchema(h, One("required", Arr(items))) <==>
      exists names :: items == Mapped(AsText, names) && NoDuplicates(names) && "" !in names
  {
    forall i, j | 0 <= i < j < |items|
      ensures Canonical(items[i]) == Canonical(items[j]) <==> Same(items[i], items[j])
    {
      CanonicalDecidesSameness(items[i], items[j]);
    }
    hide Canonical, Same, AcceptedSchema;
    EnumAcceptedAlone(h, items);
    RequiredAcceptedAlone(h, items);
    var names := Mapped(TextOf, items);
    if AllTexts(items) { assert items == Mapped(AsText, names); }
    forall other | items == Mapped(AsText, other) ensures names == other && AllTexts(items) { }
  }

  lemma EnumAcceptedAlone(h: Host, items: seq<Value>)
    ensures AcceptedSchema(h, One("enum", Arr(items))) <==>
      items != [] && forall i, j :: 0 <= i < j < |items| ==> Canonical(items[i]) != Canonical(items[j])
  {
    hide Get, One, Two;
    OneChoices(Arr(items));
  }

  lemma RequiredAcceptedAlone(h: Host, items: seq<Value>)
    ensures AcceptedSchema(h, One("required", Arr(items))) <==>
      AllTexts(items) && NoDuplicates(Mapped(TextOf, items)) && "" !in Mapped(TextOf, items)
  {
    hide Get, One, Two;
    OneRequired(Arr(items));
    var names := Mapped(TextOf, items);
    assert forall i :: 0 <= i < |items| ==> names[i] == TextOf(items[i]);
  }

  /** Constants are free, and additional properties a truth value. */
  lemma ChoicesAcceptedExactly(h: Host, argument: Value)
    ensures AcceptedSchema(h, One("const", argument))
    ensures AcceptedSchema(h, One("additionalProperties", argument)) <==> argument.Bool?
  {
    hide Get, One, Two;
    OneConstant(argument);
    OneAdditional(argument);
  }

  /** Items have an accepted schema, and properties have names and accepted schemas. */
  lemma ChildrenAcceptedExactly(h: Host, argument: Value)
    ensures AcceptedSchema(h, One("items", argument)) <==> AcceptedSchema(h, argument)
    ensures AcceptedSchema(h, One("properties", argument)) <==>
      argument.Obj? && forall i :: 0 <= i < |argument.members| ==>
        argument.members[i].key != "" && AcceptedSchema(h, argument.members[i].value)
  {
    hide Get, One, Two;
    OneItems(argument);
    OneProperties(argument);
  }

  // ----- keywords beside a type -----

  /** Beside a type, object keywords are accepted for objects only. */
  lemma ObjectKeywordsOfType(h: Host, argument: Value, name: string)
    requires IsTypeName(name)
    ensures AcceptedSchema(h, Two("required", argument, "type", Str(name))) <==>
      AcceptedSchema(h, One("required", argument)) && name == "object"
    ensures AcceptedSchema(h, Two("additionalProperties", argument, "type", Str(name))) <==>
      argument.Bool? && name == "object"
    ensures AcceptedSchema(h, Two("properties", argument, "type", Str(name))) <==>
      AcceptedSchema(h, One("properties", argument)) && name == "object"
  {
    hide Get, One, Two;
    OneRequired(argument);
    OneProperties(argument);
    RequiredOfType(argument, Str(name));
    PropertiesOfType(argument, Str(name));
    AdditionalOfType(argument, Str(name));
    assert [name][0] == name;
  }

  /** List keywords for lists only. */
  lemma ListKeywordsOfType(h: Host, argument: Value, name: string)
    requires IsTypeName(name)
    ensures AcceptedSchema(h, Two("items", argument, "type", Str(name))) <==>
      AcceptedSchema(h, argument) && name == "array"
    ensures AcceptedSchema(h, Two("minItems", argument, "type", Str(name))) <==>
      argument.Int? && argument.whole >= 0 && name == "array"
    ensures AcceptedSchema(h, Two("maxItems", argument, "type", Str(name))) <==>
      argument.Int? && argument.whole >= 0 && name == "array"
  {
    hide Get, One, Two;
    ItemsOfType(argument, Str(name));
    MinItemsOfType(argument, Str(name));
    MaxItemsOfType(argument, Str(name));
    assert [name][0] == name;
  }

  /** Bounds for numbers and patterns for texts only. */
  lemma ScalarKeywordsOfType(h: Host, argument: Value, name: string)
    requires IsTypeName(name)
    ensures AcceptedSchema(h, Two("minimum", argument, "type", Str(name))) <==>
      IsNumber(argument) && (name == "integer" || name == "number")
    ensures AcceptedSchema(h, Two("maximum", argument, "type", Str(name))) <==>
      IsNumber(argument) && (name == "integer" || name == "number")
    ensures AcceptedSchema(h, Two("pattern", argument, "type", Str(name))) <==>
      argument.Str? && h.compiles(argument.text) && name == "string"
  {
    hide Get, One, Two;
    MinimumOfType(argument, Str(name));
    MaximumOfType(argument, Str(name));
    PatternOfType(argument, Str(name));
    assert [name][0] == name;
  }
}
