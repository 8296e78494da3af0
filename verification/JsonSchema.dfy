/** The finite schema validator for facet values (cli/src/modelable/facets.py). */
module JsonSchema {
  import opened Text
  import opened Ordering
  import opened Json

  /** What the host decides: which patterns compile and which texts they find, and the value a
      float's bits stand for. */
  datatype Host = Host(compiles: string -> bool, search: (string, string) -> bool, floatValue: nat -> real)

  const KEYWORDS: seq<string> := [
    "type", "const", "enum", "properties", "required", "items", "minItems", "maxItems", "minimum", "maximum",
    "pattern", "additionalProperties"]

  const VALUE_TYPES: seq<string> := ["null", "boolean", "integer", "number", "string", "array", "object"]

  predicate IsNumber(v: Value) { v.Int? || v.Real? }

  function NumberOf(h: Host, v: Value): real
    requires IsNumber(v)
  {
    match v case Int(i) => i as real case Real(bits) => h.floatValue(bits)
  }

  function TextOf(v: Value): string { if v.Str? then v.text else "" }

  predicate IsText(v: Value) { v.Str? }

  predicate AllTexts(items: seq<Value>) { forall i :: 0 <= i < |items| ==> IsText(items[i]) }

  // ----- accepted schemas -----

  predicate Has(s: Value, key: string) { Get(s, key).Some? }

  /** The type names a schema lists: none when the keyword is absent. */
  function TypesOf(s: Value): Option<seq<string>> {
    match Get(s, "type")
    case None => None
    case Some(Str(t)) => Some([t])
    case Some(Arr(items)) => Some(Mapped(TextOf, items))
    case Some(_) => Some([])
  }

  predicate Unrepeated(names: seq<string>) {
    forall i, j :: 0 <= i < j < |names| ==> names[i] != names[j]
  }

  predicate TypesAccepted(s: Value) {
    match Get(s, "type")
    case None => true
    case Some(Str(t)) => t in VALUE_TYPES
    case Some(Arr(items)) =>
      items != [] && AllTexts(items) && Unrepeated(Mapped(TextOf, items)) &&
      forall i :: 0 <= i < |items| ==> TextOf(items[i]) in VALUE_TYPES
    case Some(_) => false
  }

  /** No two choices with one canonical form. */
  predicate EnumAccepted(s: Value) {
    match Get(s, "enum")
    case None => true
    case Some(Arr(items)) =>
      items != [] && forall i, j :: 0 <= i < j < |items| ==> Canonical(items[i]) != Canonical(items[j])
    case Some(_) => false
  }

  predicate RequiredAccepted(s: Value) {
    match Get(s, "required")
    case None => true
    case Some(Arr(items)) =>
      AllTexts(items) && Unrepeated(Mapped(TextOf, items)) && forall i :: 0 <= i < |items| ==> TextOf(items[i]) != ""
    case Some(_) => false
  }

  predicate IsCount(v: Option<Value>) { v.None? || (v.value.Int? && v.value.whole >= 0) }

  predicate IsBound(v: Option<Value>) { v.None? || IsNumber(v.value) }

  predicate BoundsAccepted(h: Host, s: Value) {
    var least, most := Get(s, "minItems"), Get(s, "maxItems");
    var low, high := Get(s, "minimum"), Get(s, "maximum");
    && IsCount(least) && IsCount(most) && (least.Some? && most.Some? ==> least.value.whole <= most.value.whole)
    && IsBound(low) && IsBound(high) && (low.Some? && high.Some? ==> NumberOf(h, low.value) <= NumberOf(h, high.value))
  }

  predicate PatternAccepted(h: Host, s: Value) {
    match Get(s, "pattern")
    case None => true
    case Some(Str(text)) => h.compiles(text)
    case Some(_) => false
  }

  /** Keywords only beside a type they can apply to. */
  predicate KeywordTypesAccepted(s: Value) {
    match TypesOf(s)
    case None => true
    case Some(types) =>
      && (Has(s, "properties") || Has(s, "required") || Has(s, "additionalProperties") ==> "object" in types)
      && (Has(s, "items") || Has(s, "minItems") || Has(s, "maxItems") ==> "array" in types)
      && (Has(s, "minimum") || Has(s, "maximum") ==> "integer" in types || "number" in types)
      && (Has(s, "pattern") ==> "string" in types)
  }

  /** What one level of a schema must satisfy. */
  predicate LevelAccepted(h: Host, s: Value) {
    && s.Obj? && (forall i :: 0 <= i < |s.members| ==> s.members[i].key in KEYWORDS)
    && TypesAccepted(s) && EnumAccepted(s) && RequiredAccepted(s) && BoundsAccepted(h, s) && PatternAccepted(h, s)
    && (Has(s, "additionalProperties") ==> Get(s, "additionalProperties").value.Bool?)
    && KeywordTypesAccepted(s)
  }

  predicate AcceptedSchema(h: Host, s: Value)
    decreases s
  {
    && LevelAccepted(h, s)
    && (match Get(s, "items")
        case None => true
        case Some(items) => AcceptedSchema(h, items))
    && (match Get(s, "properties")
        case None => true
        case Some(Obj(ms)) => forall i :: 0 <= i < |ms| ==> ms[i].key != "" && AcceptedSchema(h, ms[i].value)
        case Some(_) => false)
  }

  // ----- values -----

  predicate MatchesType(v: Value, name: string) {
    || (name == "null" && v.Null?)
    || (name == "boolean" && v.Bool?)
    || (name == "integer" && v.Int?)
    || (name == "number" && IsNumber(v))
    || (name == "string" && v.Str?)
    || (name == "array" && v.Arr?)
    || (name == "object" && v.Obj?)
  }

  predicate TypeHolds(s: Value, v: Value) {
    match TypesOf(s)
    case None => true
    case Some(types) => exists i :: 0 <= i < |types| && MatchesType(v, types[i])
  }

  predicate ChoiceHolds(s: Value, v: Value) {
    && (Has(s, "const") ==> Canonical(v) == Canonical(Get(s, "const").value))
    && (match Get(s, "enum")
        case Some(Arr(items)) => exists i :: 0 <= i < |items| && Canonical(v) == Canonical(items[i])
        case _ => true)
  }

  predicate MembersHold(s: Value, v: Value) {
    v.Obj? ==>
      && (match Get(s, "required")
          case Some(Arr(items)) => forall i :: 0 <= i < |items| ==> Has(v, TextOf(items[i]))
          case _ => true)
      && (Get(s, "additionalProperties") == Some(Bool(false)) ==>
            forall i :: 0 <= i < |v.members| ==> Property(s, v.members[i].key).Some?)
  }

  /** The schema a property has, if it is declared. */
  function Property(s: Value, name: string): Option<Value> {
    match Get(s, "properties")
    case Some(properties) => Get(properties, name)
    case None => None
  }

  predicate SizeHolds(s: Value, v: Value) {
    v.Arr? ==>
      && (match Get(s, "minItems") case Some(Int(n)) => |v.items| >= n case _ => true)
      && (match Get(s, "maxItems") case Some(Int(n)) => |v.items| <= n case _ => true)
  }

  predicate RangeHolds(h: Host, s: Value, v: Value) {
    IsNumber(v) ==>
      && (match Get(s, "minimum") case Some(m) => IsNumber(m) ==> NumberOf(h, v) >= NumberOf(h, m) case None => true)
      && (match Get(s, "maximum") case Some(m) => IsNumber(m) ==> NumberOf(h, v) <= NumberOf(h, m) case None => true)
  }

  predicate PatternHolds(h: Host, s: Value, v: Value) {
    v.Str? ==> match Get(s, "pattern") case Some(Str(text)) => h.search(text, v.text) case _ => true
  }

  predicate LevelHolds(h: Host, s: Value, v: Value) {
    TypeHolds(s, v) && ChoiceHolds(s, v) && MembersHold(s, v) && SizeHolds(s, v) && RangeHolds(h, s, v) &&
    PatternHolds(h, s, v)
  }

  /** `_validate_value`, meant for schemas that are accepted. */
  predicate Validates(h: Host, s: Value, v: Value)
    decreases v
  {
    && LevelHolds(h, s, v)
    && (v.Obj? ==> forall i :: 0 <= i < |v.members| ==>
          var child := Property(s, v.members[i].key);
          child.Some? ==> Validates(h, child.value, v.members[i].value))
    && (v.Arr? && Has(s, "items") ==> forall i :: 0 <= i < |v.items| ==>
          Validates(h, Get(s, "items").value, v.items[i]))
  }

  // ----- the checks, in the order they are made -----

  /** `len(set(names)) == len(names)`. */
  lemma CountFindsRepeats(names: seq<string>)
    ensures |set n | n in names| == |names| <==> Unrepeated(names)
  {
    DistinctCount(names);
  }

  lemma CountFindsEqualChoices(items: seq<Value>)
    ensures |set v | v in Mapped(Canonical, items)| == |items| <==>
      forall i, j :: 0 <= i < j < |items| ==> Canonical(items[i]) != Canonical(items[j])
  {
    hide Canonical;
    var all := Mapped(Canonical, items);
    DistinctCount(all);
    assert forall i :: 0 <= i < |items| ==> all[i] == Canonical(items[i]);
    if NoDuplicates(all) {
      forall i, j | 0 <= i < j < |items| ensures Canonical(items[i]) != Canonical(items[j]) { assert all[i] != all[j]; }
    }
  }

  /** Names given as one text or as a list without repeats. */
  method CheckTypes(s: Value) returns (ok: bool)
    ensures ok <==> TypesAccepted(s)
  {
    match Get(s, "type") {
      case None => return true;
      case Some(Str(t)) => return t in VALUE_TYPES;
      case Some(Arr(items)) =>
        if items == [] || !AllTexts(items) { return false; }
        var names := Mapped(TextOf, items);
        assert forall i :: 0 <= i < |items| ==> names[i] == TextOf(items[i]);
        if exists i :: 0 <= i < |names| && names[i] !in VALUE_TYPES { return false; }
        CountFindsRepeats(names);
        return |set n | n in names| == |names|;
      case Some(_) => return false;
    }
  }

  method CheckEnum(s: Value) returns (ok: bool)
    ensures ok <==> EnumAccepted(s)
  {
    hide Canonical;
    match Get(s, "enum") {
      case None => return true;
      case Some(Arr(items)) =>
        if items == [] { return false; }
        CountFindsEqualChoices(items);
        return |set v | v in Mapped(Canonical, items)| == |items|;
      case Some(_) => return false;
    }
  }

  method CheckRequired(s: Value) returns (ok: bool)
    ensures ok <==> RequiredAccepted(s)
  {
    match Get(s, "required") {
      case None => return true;
      case Some(Arr(items)) =>
        if !AllTexts(items) || exists i :: 0 <= i < |items| && TextOf(items[i]) == "" { return false; }
        var names := Mapped(TextOf, items);
        CountFindsRepeats(names);
        return |set n | n in names| == |names|;
      case Some(_) => return false;
    }
  }

  /** `_validate_schema`: accepts exactly the accepted schemas. */
  method ValidateSchema(h: Host, s: Value) returns (ok: bool)
    requires s.Obj?
    ensures ok <==> AcceptedSchema(h, s)
    decreases s
  {
    hide Get, TypesAccepted, EnumAccepted, RequiredAccepted, BoundsAccepted, PatternAccepted, KeywordTypesAccepted;
    if exists i :: 0 <= i < |s.members| && s.members[i].key !in KEYWORDS { return false; }
    ok := CheckTypes(s);
    if !ok { return false; }
    ok := CheckEnum(s);
    if !ok { return false; }
    if Has(s, "properties") {
      ok := ValidateProperties(h, s, Get(s, "properties").value);
      if !ok { return false; }
    }
    ok := CheckRequired(s);
    if !ok { return false; }
    if Has(s, "additionalProperties") && !Get(s, "additionalProperties").value.Bool? { return false; }
    if Has(s, "items") {
      if !Get(s, "items").value.Obj? { return false; }
      ok := ValidateSchema(h, Get(s, "items").value);
      if !ok { return false; }
    }
    return BoundsAccepted(h, s) && PatternAccepted(h, s) && KeywordTypesAccepted(s);
  }

  lemma AcceptedIsObject(h: Host, s: Value)
    ensures AcceptedSchema(h, s) ==> s.Obj?
  {
  }

  /** The loop over the declared properties. */
  method ValidateProperties(h: Host, ghost s: Value, properties: Value) returns (ok: bool)
    requires properties < s
    ensures ok <==> properties.Obj? && forall i :: 0 <= i < |properties.members| ==>
      properties.members[i].key != "" && AcceptedSchema(h, properties.members[i].value)
    decreases s, 0
  {
    hide LevelAccepted, Get;
    if !properties.Obj? { return false; }
    var i := 0;
    while i < |properties.members|
      invariant 0 <= i <= |properties.members|
      invariant forall k :: 0 <= k < i ==>
        properties.members[k].key != "" && AcceptedSchema(h, properties.members[k].value)
    {
      var m := properties.members[i];
      assert m < properties && m.value < m;
      AcceptedIsObject(h, m.value);
      if m.key == "" || !m.value.Obj? { return false; }
      ok := ValidateSchema(h, m.value);
      if !ok { return false; }
      i := i + 1;
    }
    return true;
  }

  /** `_validate_value`: passes exactly the values the schema validates. */
  method ValidateValue(h: Host, s: Value, v: Value) returns (ok: bool)
    ensures ok <==> Validates(h, s, v)
    decreases v
  {
    hide Get, TypeHolds, ChoiceHolds, SizeHolds, RangeHolds, PatternHolds, MembersHold, Property;
    if !TypeHolds(s, v) { return false; }
    if !ChoiceHolds(s, v) { return false; }
    if v.Obj? {
      if !MembersHold(s, v) { return false; }
      var i := 0;
      while i < |v.members|
        invariant 0 <= i <= |v.members|
        invariant forall k :: 0 <= k < i ==>
          var child := Property(s, v.members[k].key);
          child.Some? ==> Validates(h, child.value, v.members[k].value)
      {
        var child := Property(s, v.members[i].key);
        if child.Some? {
          ok := ValidateValue(h, child.value, v.members[i].value);
          if !ok { return false; }
        }
        i := i + 1;
      }
    }
    if v.Arr? {
      if !SizeHolds(s, v) { return false; }
      if Has(s, "items") {
        var i := 0;
        while i < |v.items|
          invariant 0 <= i <= |v.items|
          invariant forall k :: 0 <= k < i ==> Validates(h, Get(s, "items").value, v.items[k])
        {
          ok := ValidateValue(h, Get(s, "items").value, v.items[i]);
          if !ok { return false; }
          i := i + 1;
        }
      }
    }
    assert !v.Obj? ==> MembersHold(s, v) by { OnlyObjectsHaveMembers(s, v); }
    assert !v.Arr? ==> SizeHolds(s, v) by { OnlyArraysHaveSize(s, v); }
    return RangeHolds(h, s, v) && PatternHolds(h, s, v);
  }

  lemma OnlyObjectsHaveMembers(s: Value, v: Value)
    ensures !v.Obj? ==> MembersHold(s, v)
  {
  }

  lemma OnlyArraysHaveSize(s: Value, v: Value)
    ensures !v.Arr? ==> SizeHolds(s, v)
  {
  }

  // ----- the verdict only depends on the canonical forms -----

  /** Two readings of one schema, or of one value. */
  ghost predicate Twins(a: Value, b: Value) {
    WellFormed(a) && WellFormed(b) && Same(a, b)
  }

  lemma TwinTexts(a: seq<Value>, b: seq<Value>)
    requires Twins(Arr(a), Arr(b))
    ensures Mapped(TextOf, a) == Mapped(TextOf, b) && (AllTexts(a) <==> AllTexts(b))
  {
    forall i | 0 <= i < |a| ensures TextOf(a[i]) == TextOf(b[i]) && (IsText(a[i]) <==> IsText(b[i])) {
      assert Same(a[i], b[i]);
    }
  }

  lemma TwinChildren(s: Value, t: Value, key: string)
    requires Twins(s, t)
    ensures Has(s, key) <==> Has(t, key)
    ensures Has(s, key) ==> Twins(Get(s, key).value, Get(t, key).value)
  {
    SameGet(s, t, key);
  }

  lemma TwinTypes(s: Value, t: Value)
    requires Twins(s, t)
    ensures TypesOf(s) == TypesOf(t) && (TypesAccepted(s) <==> TypesAccepted(t))
  {
    hide Get, WellFormed;
    TwinChildren(s, t, "type");
    if Has(s, "type") && Get(s, "type").value.Arr? {
      var a, b := Get(s, "type").value.items, Get(t, "type").value.items;
      TwinTexts(a, b);
      assert forall i :: 0 <= i < |a| ==> TextOf(a[i]) == Mapped(TextOf, a)[i] && TextOf(b[i]) == Mapped(TextOf, b)[i];
    }
  }

  lemma TwinChoices(s: Value, t: Value, v: Value, w: Value)
    requires Twins(s, t) && Twins(v, w) && ChoiceHolds(s, v)
    ensures ChoiceHolds(t, w)
  {
    hide Get, WellFormed;
    TwinChildren(s, t, "const");
    TwinChildren(s, t, "enum");
    SameMeansCanonical(v, w);
    if Has(s, "const") { SameMeansCanonical(Get(s, "const").value, Get(t, "const").value); }
    if Has(s, "enum") && Get(s, "enum").value.Arr? {
      var a, b := Get(s, "enum").value.items, Get(t, "enum").value.items;
      var i :| 0 <= i < |a| && Canonical(v) == Canonical(a[i]);
      TwinItems(a, b, i);
      SameMeansCanonical(a[i], b[i]);
    }
  }

  lemma TwinItems(a: seq<Value>, b: seq<Value>, i: nat)
    requires Twins(Arr(a), Arr(b)) && i < |a|
    ensures |b| == |a| && Twins(a[i], b[i])
  {
  }

  lemma TwinProperties(s: Value, t: Value, name: string)
    requires Twins(s, t)
    ensures Property(s, name).Some? <==> Property(t, name).Some?
    ensures Property(s, name).Some? ==> Twins(Property(s, name).value, Property(t, name).value)
  {
    hide Get, WellFormed, Same;
    TwinChildren(s, t, "properties");
    if Has(s, "properties") { TwinChildren(Get(s, "properties").value, Get(t, "properties").value, name); }
  }

  /** Every member of an object has a twin in each twin of the object. */
  lemma TwinMember(v: Value, w: Value, i: nat) returns (j: nat)
    requires Twins(v, w) && v.Obj? && i < |v.members|
    ensures w.Obj? && j < |w.members| && w.members[j].key == v.members[i].key
    ensures Twins(v.members[i].value, w.members[j].value)
  {
    assert HasSame(v.members[i], w.members);
    j :| 0 <= j < |w.members| && w.members[j].key == v.members[i].key && Same(v.members[i].value, w.members[j].value);
  }

  lemma TwinMembers(s: Value, t: Value, v: Value, w: Value)
    requires Twins(s, t) && Twins(v, w) && MembersHold(s, v)
    ensures MembersHold(t, w)
  {
    hide Get, WellFormed, Property;
    if v.Obj? {
      TwinChildren(s, t, "required");
      if Has(s, "required") && Get(s, "required").value.Arr? {
        var a, b := Get(s, "required").value.items, Get(t, "required").value.items;
        TwinTexts(a, b);
        forall i | 0 <= i < |b| ensures Has(w, TextOf(b[i])) {
          assert Mapped(TextOf, a)[i] == Mapped(TextOf, b)[i];
          TwinChildren(v, w, TextOf(b[i]));
        }
      }
      if Get(t, "additionalProperties") == Some(Bool(false)) {
        TwinSwitch(s, t);
        SameSymmetric(v, w);
        forall j | 0 <= j < |w.members| ensures Property(t, w.members[j].key).Some? {
          var i := TwinMember(w, v, j);
          TwinProperties(s, t, w.members[j].key);
        }
      }
    }
  }

  lemma TwinSwitch(s: Value, t: Value)
    requires Twins(s, t) && Get(t, "additionalProperties") == Some(Bool(false))
    ensures Get(s, "additionalProperties") == Some(Bool(false))
  {
    hide Get, WellFormed;
    TwinChildren(s, t, "additionalProperties");
  }

  lemma TwinLevels(h: Host, s: Value, t: Value, v: Value, w: Value)
    requires Twins(s, t) && Twins(v, w) && LevelHolds(h, s, v)
    ensures LevelHolds(h, t, w)
  {
    hide Get, WellFormed, TypesOf, ChoiceHolds, MembersHold;
    TwinTypes(s, t);
    TwinChoices(s, t, v, w);
    TwinMembers(s, t, v, w);
    TwinChildren(s, t, "minItems");
    TwinChildren(s, t, "maxItems");
    TwinChildren(s, t, "minimum");
    TwinChildren(s, t, "maximum");
    TwinChildren(s, t, "pattern");
  }

  lemma {:induction false} TwinsValidate(h: Host, s: Value, t: Value, v: Value, w: Value)
    requires Twins(s, t) && Twins(v, w) && Validates(h, s, v)
    ensures Validates(h, t, w)
    decreases v
  {
    hide Get, WellFormed, Same, Property, LevelHolds;
    TwinLevels(h, s, t, v, w);
    SameSymmetric(v, w);
    SameShape(v, w);
    if w.Obj? {
      forall j | 0 <= j < |w.members| && Property(t, w.members[j].key).Some?
        ensures Validates(h, Property(t, w.members[j].key).value, w.members[j].value)
      {
        var i := TwinMember(w, v, j);
        TwinProperties(s, t, w.members[j].key);
        SameSymmetric(w.members[j].value, v.members[i].value);
        TwinsValidate(h, Property(s, v.members[i].key).value, Property(t, w.members[j].key).value,
          v.members[i].value, w.members[j].value);
      }
    }
    if w.Arr? && Has(t, "items") {
      TwinChildren(s, t, "items");
      forall i | 0 <= i < |w.items| ensures Validates(h, Get(t, "items").value, w.items[i]) {
        TwinItems(v.items, w.items, i);
        TwinsValidate(h, Get(s, "items").value, Get(t, "items").value, v.items[i], w.items[i]);
      }
    }
  }

  lemma SameShape(v: Value, w: Value)
    requires Same(v, w)
    ensures (v.Obj? <==> w.Obj?) && (v.Arr? <==> w.Arr?) && (v.Arr? ==> |v.items| == |w.items|)
  {
  }

  /** Whether a value passes a schema does not depend on the order in which the members of either
      are written, at any depth. */
  lemma VerdictIgnoresMemberOrder(h: Host, s: Value, t: Value, v: Value, w: Value)
    requires WellFormed(s) && WellFormed(t) && WellFormed(v) && WellFormed(w)
    requires Canonical(s) == Canonical(t) && Canonical(v) == Canonical(w)
    ensures Validates(h, s, v) <==> Validates(h, t, w)
  {
    CanonicalMeansSame(s, t);
    CanonicalMeansSame(v, w);
    SameSymmetric(s, t);
    SameSymmetric(v, w);
    if Validates(h, s, v) { TwinsValidate(h, s, t, v, w); }
    if Validates(h, t, w) { TwinsValidate(h, t, s, w, v); }
  }

  // ----- acceptance -----

  lemma TwinEnums(s: Value, t: Value)
    requires Twins(s, t) && EnumAccepted(s)
    ensures EnumAccepted(t)
  {
    hide Get, WellFormed, Canonical;
    TwinChildren(s, t, "enum");
    if Has(s, "enum") {
      var a, b := Get(s, "enum").value.items, Get(t, "enum").value.items;
      forall i | 0 <= i < |a| ensures Canonical(a[i]) == Canonical(b[i]) {
        TwinItems(a, b, i);
        SameMeansCanonical(a[i], b[i]);
      }
    }
  }

  lemma TwinRequired(s: Value, t: Value)
    requires Twins(s, t) && RequiredAccepted(s)
    ensures RequiredAccepted(t)
  {
    hide Get, WellFormed;
    TwinChildren(s, t, "required");
    if Has(s, "required") {
      var a, b := Get(s, "required").value.items, Get(t, "required").value.items;
      TwinTexts(a, b);
      assert forall i :: 0 <= i < |a| ==> TextOf(a[i]) == Mapped(TextOf, a)[i] && TextOf(b[i]) == Mapped(TextOf, b)[i];
    }
  }

  lemma TwinBounds(h: Host, s: Value, t: Value)
    requires Twins(s, t)
    ensures BoundsAccepted(h, s) ==> BoundsAccepted(h, t)
  {
    hide Get, WellFormed;
    TwinChildren(s, t, "minItems");
    TwinChildren(s, t, "maxItems");
    TwinChildren(s, t, "minimum");
    TwinChildren(s, t, "maximum");
  }

  lemma TwinKeywords(s: Value, t: Value)
    requires Twins(s, t) && KeywordTypesAccepted(s)
    ensures KeywordTypesAccepted(t)
  {
    hide Get, WellFormed, TypesOf;
    TwinTypes(s, t);
    TwinChildren(s, t, "properties");
    TwinChildren(s, t, "required");
    TwinChildren(s, t, "additionalProperties");
    TwinChildren(s, t, "items");
    TwinChildren(s, t, "minItems");
    TwinChildren(s, t, "maxItems");
    TwinChildren(s, t, "minimum");
    TwinChildren(s, t, "maximum");
    TwinChildren(s, t, "pattern");
  }

  lemma TwinLevelsAccepted(h: Host, s: Value, t: Value)
    requires Twins(s, t) && LevelAccepted(h, s)
    ensures LevelAccepted(h, t)
  {
    hide Get, WellFormed, TypesAccepted, EnumAccepted, RequiredAccepted, BoundsAccepted, KeywordTypesAccepted;
    TwinTypes(s, t);
    TwinEnums(s, t);
    TwinRequired(s, t);
    TwinBounds(h, s, t);
    TwinKeywords(s, t);
    TwinChildren(s, t, "pattern");
    TwinChildren(s, t, "additionalProperties");
    SameSymmetric(s, t);
    forall j | 0 <= j < |t.members| ensures t.members[j].key in KEYWORDS { var i := TwinMember(t, s, j); }
  }

  lemma {:induction false} TwinsAccepted(h: Host, s: Value, t: Value)
    requires Twins(s, t) && AcceptedSchema(h, s)
    ensures AcceptedSchema(h, t)
    decreases s
  {
    hide Get, WellFormed, Same, LevelAccepted;
    TwinLevelsAccepted(h, s, t);
    TwinChildren(s, t, "items");
    TwinChildren(s, t, "properties");
    if Has(s, "items") { TwinsAccepted(h, Get(s, "items").value, Get(t, "items").value); }
    if Has(s, "properties") {
      var a, b := Get(s, "properties").value, Get(t, "properties").value;
      SameShape(a, b);
      SameSymmetric(a, b);
      forall j | 0 <= j < |b.members| ensures b.members[j].key != "" && AcceptedSchema(h, b.members[j].value) {
        var i := TwinMember(b, a, j);
        SameSymmetric(b.members[j].value, a.members[i].value);
        assert a.members[i] < a;
        TwinsAccepted(h, a.members[i].value, b.members[j].value);
      }
    }
  }

  /** Nor does whether a schema is accepted. */
  lemma AcceptanceIgnoresMemberOrder(h: Host, s: Value, t: Value)
    requires WellFormed(s) && WellFormed(t) && Canonical(s) == Canonical(t)
    ensures AcceptedSchema(h, s) <==> AcceptedSchema(h, t)
  {
    CanonicalMeansSame(s, t);
    SameSymmetric(s, t);
    if AcceptedSchema(h, s) { TwinsAccepted(h, s, t); }
    if AcceptedSchema(h, t) { TwinsAccepted(h, t, s); }
  }

  /** A value that passes an accepted schema is exactly one of its choices. */
  lemma OneChoice(h: Host, s: Value, v: Value)
    requires WellFormed(s) && WellFormed(v) && AcceptedSchema(h, s) && Validates(h, s, v) && Has(s, "enum")
    ensures Get(s, "enum").value.Arr?
    ensures var items := Get(s, "enum").value.items;
      exists i :: 0 <= i < |items| && Same(v, items[i]) &&
        forall j :: 0 <= j < |items| && j != i ==> !Same(v, items[j])
  {
    hide Get, Same, Canonical, WellFormed, TypeHolds, MembersHold;
    var items := Get(s, "enum").value.items;
    var i :| 0 <= i < |items| && Canonical(v) == Canonical(items[i]);
    ChoicesWellFormed(s);
    CanonicalMeansSame(v, items[i]);
    forall j | 0 <= j < |items| && j != i ensures !Same(v, items[j]) {
      if Same(v, items[j]) {
        SameMeansCanonical(v, items[j]);
      }
    }
  }

  lemma ChoicesWellFormed(s: Value)
    requires WellFormed(s) && Has(s, "enum") && Get(s, "enum").value.Arr?
    ensures forall i :: 0 <= i < |Get(s, "enum").value.items| ==> WellFormed(Get(s, "enum").value.items[i])
  {
    hide Get, Find, Same;
    assert WellFormed(Get(s, "enum").value) by { GetWellFormed(s, "enum"); }
  }

  lemma GetWellFormed(s: Value, key: string)
    requires WellFormed(s) && Has(s, key)
    ensures WellFormed(Get(s, key).value)
  {
    hide Find;
    var i :| 0 <= i < |s.members| && s.members[i] == Member(key, Get(s, key).value);
  }
}
