/** Overlay documents and their layered resolution (cli/src/modelable/overlays.py). */
module Overlays {
  import opened Text
  import opened Ordering
  import opened OverlaySelectors
  import Identity

  // ----- values under Python's equality -----

  /** Floats up to the sign of zero. */
  datatype Float = Finite(value: real) | Infinite(positive: bool) | NotANumber

  datatype MomentKind = Date | LocalTime | LocalDateTime | OffsetDateTime

  datatype Value =
    | Str(text: string) | Int(whole: int) | Bool(truth: bool) | Fraction(number: Float)
    | Moment(kind: MomentKind, instant: int) | List(items: seq<Value>) | Table(members: map<string, Value>)

  function Numeric(v: Value): Option<Float> {
    match v
    case Int(i) => Some(Finite(i as real))
    case Bool(b) => Some(Finite(if b then 1.0 else 0.0))
    case Fraction(f) => Some(f)
    case _ => None
  }

  /** Python's `==`: numbers of every kind compare by value, and nothing equals not-a-number. */
  predicate PyEq(a: Value, b: Value) {
    match (a, b)
    case (Str(s), Str(t)) => s == t
    case (Moment(k, m), Moment(l, n)) => k == l && m == n
    case (List(s), List(t)) => |s| == |t| && forall i :: 0 <= i < |s| ==> PyEq(s[i], t[i])
    case (Table(s), Table(t)) => s.Keys == t.Keys && forall k :: k in s && k in t ==> PyEq(s[k], t[k])
    case _ => Numeric(a).Some? && Numeric(a) == Numeric(b) && Numeric(a).value != NotANumber
  }

  lemma {:induction false} PyEqSymmetric(a: Value, b: Value)
    requires PyEq(a, b)
    ensures PyEq(b, a)
  {
    match (a, b) {
      case (List(s), List(t)) =>
        forall i | 0 <= i < |s| ensures PyEq(t[i], s[i]) { PyEqSymmetric(s[i], t[i]); }
      case (Table(s), Table(t)) =>
        forall k | k in s && k in t ensures PyEq(t[k], s[k]) { PyEqSymmetric(s[k], t[k]); }
      case _ =>
    }
  }

  lemma {:induction false} PyEqTransitive(a: Value, b: Value, c: Value)
    requires PyEq(a, b) && PyEq(b, c)
    ensures PyEq(a, c)
  {
    match (a, b, c) {
      case (List(s), List(t), List(u)) =>
        forall i | 0 <= i < |s| ensures PyEq(s[i], u[i]) { PyEqTransitive(s[i], t[i], u[i]); }
      case (Table(s), Table(t), Table(u)) =>
        forall k | k in s && k in u ensures PyEq(s[k], u[k]) { PyEqTransitive(s[k], t[k], u[k]); }
      case _ =>
    }
  }

  predicate IsContainer(v: Value) { v.List? || v.Table? }

  /** Tables may nest; arrays hold scalars only. */
  predicate ValidValues(values: map<string, Value>) {
    forall k :: k in values ==> ValidValue(values[k])
  }

  predicate ValidValue(v: Value) {
    match v
    case List(items) => forall i :: 0 <= i < |items| ==> !IsContainer(items[i])
    case Table(members) => forall k :: k in members ==> ValidValue(members[k])
    case _ => true
  }

  // ----- documents -----

  type Values = map<string, Value>

  datatype RawEntry = RawEntry(selector: string, values: Values)

  /** The file's tables; an ordered list stands for a table, whose selectors are distinct. */
  datatype RawDocument = RawDocument(defaults: Values, models: seq<RawEntry>, fields: seq<RawEntry>)

  ghost predicate DistinctSelectors(table: seq<RawEntry>) {
    forall i, j :: 0 <= i < j < |table| ==> table[i].selector != table[j].selector
  }

  ghost predicate IsTable(raw: RawDocument) { DistinctSelectors(raw.models) && DistinctSelectors(raw.fields) }

  datatype Entry = Entry(section: Section, selector: Selector, values: Values)

  datatype Document = Document(defaults: Values, entries: seq<Entry>)

  function Specificity(e: Entry): nat { e.selector.specificity }

  function SectionName(s: Section): string { if s.Models? then "models" else "fields" }

  /** The key `(specificity, section, selector)`. */
  predicate EntryLeq(a: Entry, b: Entry) {
    if Specificity(a) != Specificity(b) then Specificity(a) < Specificity(b)
    else if a.section != b.section then StringLeq(SectionName(a.section), SectionName(b.section))
    else StringLeq(a.selector.text, b.selector.text)
  }

  lemma EntryOrder()
    ensures Preorder(EntryLeq)
    ensures forall a, b :: EntryLeq(a, b) && EntryLeq(b, a) ==>
      a.section == b.section && a.selector.text == b.selector.text
  {
    hide StringLeq;
    StringOrder();
    assert SectionName(Models) != SectionName(Fields) by { assert "models"[0] != "fields"[0]; }
  }

  predicate ValidEntry(raw: RawEntry, section: Section) {
    ValidValues(raw.values) && ParseSelector(raw.selector, section).Some?
  }

  function ToEntry(raw: RawEntry, section: Section): Entry
    requires ValidEntry(raw, section)
  {
    Entry(section, ParseSelector(raw.selector, section).value, raw.values)
  }

  function ToEntries(table: seq<RawEntry>, section: Section): (r: seq<Entry>)
    requires ValidSection(table, section)
    ensures |r| == |table| && forall i :: 0 <= i < |r| ==> r[i] == ToEntry(table[i], section)
  {
    seq(|table|, i requires 0 <= i < |table| => ToEntry(table[i], section))
  }

  ghost predicate ValidSection(table: seq<RawEntry>, section: Section) {
    forall i :: 0 <= i < |table| ==> ValidEntry(table[i], section)
  }

  ghost predicate ValidDocument(raw: RawDocument) {
    ValidValues(raw.defaults) && ValidSection(raw.models, Models) && ValidSection(raw.fields, Fields)
  }

  ghost function ParsedDocument(raw: RawDocument): Document
    requires ValidDocument(raw)
  {
    Document(raw.defaults, SortBy(EntryLeq, ToEntries(raw.models, Models) + ToEntries(raw.fields, Fields)))
  }

  /** The loop over one section's table. */
  method ParseSection(table: seq<RawEntry>, section: Section) returns (r: Option<seq<Entry>>)
    ensures r.Some? <==> ValidSection(table, section)
    ensures r.Some? ==> r.value == ToEntries(table, section)
  {
    hide ParseSelector, ValidValue;
    var entries: seq<Entry> := [];
    var i := 0;
    while i < |table|
      invariant 0 <= i <= |table| && |entries| == i
      invariant forall k :: 0 <= k < i ==> ValidEntry(table[k], section) && entries[k] == ToEntry(table[k], section)
    {
      if !ValidValues(table[i].values) { return None; }
      match ParseSelector(table[i].selector, section) {
        case None => return None;
        case Some(parsed) =>
          entries := entries + [Entry(section, parsed, table[i].values)];
          i := i + 1;
      }
    }
    return Some(entries);
  }

  /** Entries in the order that decides provenance. */
  method ParseOverlay(raw: RawDocument) returns (r: Option<Document>)
    ensures r.Some? <==> ValidDocument(raw)
    ensures r.Some? ==> r.value == ParsedDocument(raw)
  {
    hide ValidSection, ToEntries, SortBy;
    if !ValidValues(raw.defaults) { return None; }
    var models := ParseSection(raw.models, Models);
    if models.None? { return None; }
    var fields := ParseSection(raw.fields, Fields);
    if fields.None? { return None; }
    r := Some(Document(raw.defaults, SortBy(EntryLeq, models.value + fields.value)));
  }

  // ----- resolution: what is asked for -----

  datatype Request = Request(declaration: string, version: nat, path: Option<string>)

  predicate Selects(e: Entry, q: Request) { Matches(e.selector, q.declaration, q.version, q.path) }

  function Matching(es: seq<Entry>, q: Request): (r: seq<Entry>)
    ensures forall e :: e in r <==> e in es && Selects(e, q)
  {
    if es == [] then []
    else
      var rest := Matching(es[..|es| - 1], q);
      if Selects(es[|es| - 1], q) then rest + [es[|es| - 1]] else rest
  }

  /** Two entries of one specificity that set a key to different values. */
  ghost predicate Clash(e: Entry, f: Entry) {
    Specificity(e) == Specificity(f) &&
    exists k :: k in e.values && k in f.values && !PyEq(e.values[k], f.values[k])
  }

  ghost predicate Conflicting(es: seq<Entry>) {
    exists i, j :: 0 <= i < j < |es| && Clash(es[i], es[j])
  }

  /** Position `m` holds the last of the most specific entries that set `k`. */
  ghost predicate Top(es: seq<Entry>, k: string, m: nat) {
    && m < |es| && k in es[m].values
    && forall i :: 0 <= i < |es| && k in es[i].values ==>
         Specificity(es[i]) < Specificity(es[m]) || (Specificity(es[i]) == Specificity(es[m]) && i <= m)
  }

  datatype Supply = Supply(value: Value, selector: string)

  ghost predicate Unset(es: seq<Entry>, k: string) {
    forall i :: 0 <= i < |es| ==> k !in es[i].values
  }

  // ----- resolution: how it is computed -----

  predicate At(e: Entry, level: int, k: string) { Specificity(e) == level && k in e.values }

  /** The last of the first `j` entries at this level that sets `k`. */
  function LastAt(es: seq<Entry>, j: nat, level: int, k: string): (r: Option<nat>)
    requires j <= |es|
    ensures r.Some? ==> r.value < j && At(es[r.value], level, k)
    ensures forall i :: (if r.Some? then r.value + 1 else 0) <= i < j ==> !At(es[i], level, k)
  {
    if j == 0 then None else if At(es[j - 1], level, k) then Some(j - 1) else LastAt(es, j - 1, level, k)
  }

  function SupplyOf(e: Entry, k: string): Supply
    requires k in e.values
  {
    Supply(e.values[k], e.selector.text)
  }

  /** The key as the first `j` entries leave it in this level's layer. */
  ghost predicate GatheredKey(es: seq<Entry>, j: nat, level: int, supplied: map<string, Supply>, k: string)
    requires j <= |es|
  {
    match LastAt(es, j, level, k)
    case None => k !in supplied
    case Some(m) => k in supplied && supplied[k] == SupplyOf(es[m], k)
  }

  ghost predicate Gathered(es: seq<Entry>, j: nat, level: int, supplied: map<string, Supply>) {
    j <= |es| && forall k :: GatheredKey(es, j, level, supplied, k)
  }

  /** No two of the first `j` entries clash at this level. */
  ghost predicate Agreeing(es: seq<Entry>, j: nat, level: int) {
    j <= |es| && forall i, l, k :: 0 <= i < l < j && At(es[i], level, k) && At(es[l], level, k) ==>
      PyEq(es[i].values[k], es[l].values[k])
  }

  /** The keys of one entry merged into its layer; no key clashed. */
  ghost predicate Merged(before: map<string, Supply>, e: Entry, keys: set<string>, after: map<string, Supply>) {
    && keys <= e.values.Keys
    && after.Keys == before.Keys + keys
    && (forall k :: k in keys ==> after[k] == SupplyOf(e, k))
    && (forall k :: k in before && k !in keys ==> after[k] == before[k])
    && (forall k :: k in keys && k in before ==> PyEq(before[k].value, e.values[k]))
  }

  lemma MergedStart(before: map<string, Supply>, e: Entry)
    ensures Merged(before, e, {}, before)
  {
  }

  lemma MergedOneMore(
    before: map<string, Supply>, e: Entry, keys: set<string>, after: map<string, Supply>, k: string)
    requires Merged(before, e, keys, after) && k in e.values && k !in keys
    requires k in after ==> PyEq(after[k].value, e.values[k])
    ensures Merged(before, e, keys + {k}, after[k := SupplyOf(e, k)])
  {
  }

  /** The loop over an entry's items, in whatever order the table lists them. */
  method MergeEntry(e: Entry, before: map<string, Supply>) returns (ok: bool, after: map<string, Supply>)
    ensures ok ==> Merged(before, e, e.values.Keys, after)
    ensures !ok ==> exists k :: k in e.values && k in before && !PyEq(before[k].value, e.values[k])
  {
    hide Merged, PyEq;
    after := before;
    var todo := e.values.Keys;
    ghost var done: set<string> := {};
    MergedStart(before, e);
    while todo != {}
      invariant Merged(before, e, done, after) && done + todo == e.values.Keys && done !! todo
      decreases |todo|
    {
      var k :| k in todo;
      var value := e.values[k];
      if k in after && !PyEq(after[k].value, value) {
        NotMergedYet(before, e, done, after, k);
        return false, after;
      }
      MergedOneMore(before, e, done, after, k);
      after := after[k := Supply(value, e.selector.text)];
      todo := todo - {k};
      done := done + {k};
    }
    assert done == e.values.Keys;
    ok := true;
  }

  lemma NotMergedYet(before: map<string, Supply>, e: Entry, keys: set<string>, after: map<string, Supply>, k: string)
    requires Merged(before, e, keys, after) && k in after && k !in keys
    ensures k in before && after[k] == before[k]
  {
  }

  /** The layer after one more entry. */
  lemma GatheredOneMore(es: seq<Entry>, j: nat, level: int, before: map<string, Supply>, after: map<string, Supply>)
    requires Gathered(es, j, level, before) && j < |es| && Specificity(es[j]) == level
    requires Merged(before, es[j], es[j].values.Keys, after)
    ensures Gathered(es, j + 1, level, after)
  {
    hide Specificity;
    var n := j + 1;
    forall k ensures GatheredKey(es, n, level, after, k) {
      assert GatheredKey(es, j, level, before, k);
    }
  }

  lemma GatheredSkip(es: seq<Entry>, j: nat, level: int, supplied: map<string, Supply>)
    requires Gathered(es, j, level, supplied) && j < |es| && Specificity(es[j]) != level
    ensures Gathered(es, j + 1, level, supplied)
  {
    var n := j + 1;
    forall k ensures GatheredKey(es, n, level, supplied, k) {
      assert GatheredKey(es, j, level, supplied, k);
    }
  }

  /** Comparing with the entry before is comparing with all of them. */
  lemma AgreeingOneMore(es: seq<Entry>, j: nat, level: int, before: map<string, Supply>, after: map<string, Supply>)
    requires Gathered(es, j, level, before) && Agreeing(es, j, level) && j < |es| && Specificity(es[j]) == level
    requires Merged(before, es[j], es[j].values.Keys, after)
    ensures Agreeing(es, j + 1, level)
  {
    hide PyEq, Gathered;
    forall i, l, k | 0 <= i < l < j + 1 && At(es[i], level, k) && At(es[l], level, k)
      ensures PyEq(es[i].values[k], es[l].values[k])
    {
      if l == j {
        assert GatheredKey(es, j, level, before, k) by { GatheredAtKey(es, j, level, before, k); }
        var m := LastAt(es, j, level, k).value;
        if i < m { PyEqTransitive(es[i].values[k], es[m].values[k], es[j].values[k]); }
      }
    }
  }

  lemma GatheredAtKey(es: seq<Entry>, j: nat, level: int, supplied: map<string, Supply>, k: string)
    requires Gathered(es, j, level, supplied)
    ensures GatheredKey(es, j, level, supplied, k)
  {
  }

  lemma AgreeingSkip(es: seq<Entry>, j: nat, level: int)
    requires Agreeing(es, j, level) && j < |es| && Specificity(es[j]) != level
    ensures Agreeing(es, j + 1, level)
  {
  }

  lemma ClashFound(es: seq<Entry>, j: nat, level: int, before: map<string, Supply>, k: string)
    requires Gathered(es, j, level, before) && j < |es| && Specificity(es[j]) == level
    requires k in es[j].values && k in before && !PyEq(before[k].value, es[j].values[k])
    ensures Conflicting(es)
  {
    hide PyEq;
    assert GatheredKey(es, j, level, before, k);
    var m := LastAt(es, j, level, k).value;
    assert Clash(es[m], es[j]);
  }

  /** One layer: every matching entry of this specificity, later ones over earlier ones. */
  method GatherLayer(es: seq<Entry>, level: int) returns (ok: bool, supplied: map<string, Supply>)
    ensures ok ==> Gathered(es, |es|, level, supplied) && Agreeing(es, |es|, level)
    ensures !ok ==> Conflicting(es)
  {
    hide Gathered, Agreeing, Conflicting, Merged, PyEq, Specificity;
    supplied := map[];
    LayerStart(es, level);
    var j := 0;
    while j < |es|
      invariant 0 <= j <= |es|
      invariant Gathered(es, j, level, supplied) && Agreeing(es, j, level)
    {
      if Specificity(es[j]) == level {
        var merged, after := MergeEntry(es[j], supplied);
        if !merged {
          var k :| k in es[j].values && k in supplied && !PyEq(supplied[k].value, es[j].values[k]);
          ClashFound(es, j, level, supplied, k);
          return false, supplied;
        }
        GatheredOneMore(es, j, level, supplied, after);
        AgreeingOneMore(es, j, level, supplied, after);
        supplied := after;
      } else {
        GatheredSkip(es, j, level, supplied);
        AgreeingSkip(es, j, level);
      }
      j := j + 1;
    }
    ok := true;
  }

  lemma LayerStart(es: seq<Entry>, level: int)
    ensures Gathered(es, 0, level, map[]) && Agreeing(es, 0, level)
  {
  }

  predicate NatLeq(a: nat, b: nat) { a <= b }

  /** The specificities that occur, ascending. */
  function Levels(es: seq<Entry>): (r: seq<nat>)
    ensures forall l :: l in r <==> exists i :: 0 <= i < |es| && Specificity(es[i]) == l
  {
    var all := Mapped(Specificity, es);
    var r := SortBy(NatLeq, Distinct(all));
    assert forall l :: l in r <==> l in all;
    assert forall l :: l in all <==> exists i :: 0 <= i < |all| && all[i] == l;
    r
  }

  lemma LevelsAscend(es: seq<Entry>)
    ensures forall i, j :: 0 <= i < j < |Levels(es)| ==> Levels(es)[i] < Levels(es)[j]
  {
    var d := Distinct(Mapped(Specificity, es));
    SortBySorted(NatLeq, d);
    SortByNoDuplicates(NatLeq, d);
  }

  /** The winner among the levels up to `n`: in the highest of them that sets the key, the last. */
  function Winner(es: seq<Entry>, levels: seq<nat>, n: nat, k: string): Option<nat>
    requires n <= |levels|
  {
    if n == 0 then None
    else
      match LastAt(es, |es|, levels[n - 1], k)
      case Some(m) => Some(m)
      case None => Winner(es, levels, n - 1, k)
  }

  /** The state after the first `n` layers, key by key. */
  ghost predicate LayeredKey(
    defaults: Values, es: seq<Entry>, levels: seq<nat>, n: nat, values: Values, provenance: map<string, string>,
    k: string)
    requires n <= |levels|
  {
    && (k in values <==> k in provenance)
    && match Winner(es, levels, n, k)
       case None => (k in values <==> k in defaults) &&
         (k in values ==> values[k] == defaults[k] && provenance[k] == "defaults")
       case Some(m) => m < |es| && k in es[m].values && k in values && values[k] == es[m].values[k] &&
                       provenance[k] == es[m].selector.text
  }

  ghost predicate Layered(
    defaults: Values, es: seq<Entry>, levels: seq<nat>, n: nat, values: Values, provenance: map<string, string>)
  {
    n <= |levels| && forall k :: LayeredKey(defaults, es, levels, n, values, provenance, k)
  }

  function ValuesOf(supplied: map<string, Supply>): Values { map k | k in supplied :: supplied[k].value }

  function SelectorsOf(supplied: map<string, Supply>): map<string, string> {
    map k | k in supplied :: supplied[k].selector
  }

  lemma LayeredOneMore(
    defaults: Values, es: seq<Entry>, levels: seq<nat>, n: nat, values: Values, provenance: map<string, string>,
    supplied: map<string, Supply>)
    requires Layered(defaults, es, levels, n, values, provenance) && n < |levels|
    requires Gathered(es, |es|, levels[n], supplied)
    ensures Layered(defaults, es, levels, n + 1, values + ValuesOf(supplied), provenance + SelectorsOf(supplied))
  {
    hide LastAt;
    var next, newValues, newProvenance := n + 1, values + ValuesOf(supplied), provenance + SelectorsOf(supplied);
    forall k ensures LayeredKey(defaults, es, levels, next, newValues, newProvenance, k) {
      assert LayeredKey(defaults, es, levels, n, values, provenance, k);
      assert GatheredKey(es, |es|, levels[n], supplied, k);
    }
  }

  ghost predicate Ascending(levels: seq<nat>) { forall i, j :: 0 <= i < j < |levels| ==> levels[i] < levels[j] }

  /** The winner is the top of what the levels hold. */
  lemma {:induction false} WinnerIsTop(es: seq<Entry>, levels: seq<nat>, n: nat, k: string)
    requires n <= |levels| && Ascending(levels)
    ensures match Winner(es, levels, n, k)
      case None => forall i, l :: 0 <= i < |es| && 0 <= l < n ==> !At(es[i], levels[l], k)
      case Some(m) => m < |es| && k in es[m].values && forall i, l ::
        0 <= i < |es| && 0 <= l < n && At(es[i], levels[l], k) ==>
        Specificity(es[i]) < Specificity(es[m]) || (Specificity(es[i]) == Specificity(es[m]) && i <= m)
  {
    if n > 0 {
      WinnerIsTop(es, levels, n - 1, k);
      var last := LastAt(es, |es|, levels[n - 1], k);
      forall i, l | 0 <= i < |es| && 0 <= l < n && At(es[i], levels[l], k) && last.Some?
        ensures Specificity(es[i]) < Specificity(es[last.value]) ||
          (Specificity(es[i]) == Specificity(es[last.value]) && i <= last.value)
      {
        assert l < n - 1 ==> levels[l] < levels[n - 1];
      }
    }
  }

  lemma AllLevelsDecide(
    defaults: Values, es: seq<Entry>, values: Values, provenance: map<string, string>, k: string)
    requires Layered(defaults, es, Levels(es), |Levels(es)|, values, provenance)
    ensures (k in values <==> k in provenance) && DecidedBy(defaults, es, k, values, provenance)
  {
    hide Winner, LastAt, Levels;
    var levels := Levels(es);
    LevelsAscend(es);
    WinnerIsTop(es, levels, |levels|, k);
    assert LayeredKey(defaults, es, levels, |levels|, values, provenance, k);
    forall i | 0 <= i < |es| ensures exists l :: 0 <= l < |levels| && levels[l] == Specificity(es[i]) {
      assert Specificity(es[i]) in levels;
    }
    match Winner(es, levels, |levels|, k) {
      case None =>
        forall i | 0 <= i < |es| ensures k !in es[i].values {
          var l :| 0 <= l < |levels| && levels[l] == Specificity(es[i]);
          assert !At(es[i], levels[l], k);
        }
      case Some(m) =>
        forall i | 0 <= i < |es| && k in es[i].values
          ensures Specificity(es[i]) < Specificity(es[m]) || (Specificity(es[i]) == Specificity(es[m]) && i <= m)
        {
          var l :| 0 <= l < |levels| && levels[l] == Specificity(es[i]);
          assert At(es[i], levels[l], k);
        }
        assert Top(es, k, m);
    }
  }

  /** What a key must come out as: the default when no matching entry sets it, otherwise the value
      and selector of the last of the most specific entries that do. */
  ghost predicate DecidedBy(
    defaults: Values, es: seq<Entry>, k: string, values: Values, provenance: map<string, string>)
  {
    (k in values <==> k in provenance) &&
    if Unset(es, k) then
      (k in values <==> k in defaults) && (k in values ==> values[k] == defaults[k] && provenance[k] == "defaults")
    else
      k in values && exists m: nat ::
        Top(es, k, m) && values[k] == es[m].values[k] && provenance[k] == es[m].selector.text
  }

  ghost predicate IsResolution(
    defaults: Values, es: seq<Entry>, values: Values, provenance: map<string, string>)
  {
    forall k :: DecidedBy(defaults, es, k, values, provenance)
  }

  datatype OverlayError = InvalidIdentity | InvalidPath | ForeignPath | Conflict

  datatype Resolution = Resolution(values: Values, provenance: map<string, string>)

  /** The subject asked about: a declaration, or a path that belongs to it. */
  function RequestOf(identity: string, semanticPath: Option<string>): Result<Request, OverlayError> {
    match ParseRequest(identity)
    case None => Err(InvalidIdentity)
    case Some((declaration, version)) =>
      if semanticPath.None? then Ok(Request(declaration, version, None))
      else
        match Identity.ParsePath(semanticPath.value)
        case Err(_) => Err(InvalidPath)
        case Ok(p) =>
          if Identity.Render(p.declaration) != identity then Err(ForeignPath)
          else
            Ok(Request(declaration, version, Some(semanticPath.value[IndexOf(semanticPath.value, '#') + 1..])))
  }

  /** A path is asked about by its segments, and only under its own declaration. */
  lemma RequestedPath(d: Identity.Declaration, p: Identity.SemanticPath)
    requires Identity.ValidPath(p) && Addressable(d, Identity.Render(d))
    ensures var r := RequestOf(Identity.Render(d), Some(Identity.RenderPath(p)));
      if d == p.declaration then
        r == Ok(Request(d.domain + "." + d.name, d.version, Some(Join(p.segments, '.'))))
      else r == Err(ForeignPath)
  {
    hide ParseRequest, Identity.ParseDeclaration, Identity.ParsePath, Identity.ValidPath, Join;
    RequestFound(d, Identity.Render(d));
    Identity.PathRoundTrip(p, Identity.RenderPath(p));
    Identity.DeclarationRoundTrip(d, Identity.Render(d));
    Identity.DeclarationRoundTrip(p.declaration, Identity.Render(p.declaration));
    ValidDeclarationOf(p);
    Identity.RenderHasNoHash(p.declaration);
    FirstSeparator(Identity.Render(p.declaration), '#', Join(p.segments, '.'));
    assert Identity.RenderPath(p) == Identity.Render(p.declaration) + ['#'] + Join(p.segments, '.');
  }

  lemma ValidDeclarationOf(p: Identity.SemanticPath)
    requires Identity.ValidPath(p)
    ensures Identity.ValidDeclaration(p.declaration)
  {
  }

  lemma LayeredStart(defaults: Values, es: seq<Entry>)
    ensures Layered(defaults, es, Levels(es), 0, defaults, map k | k in defaults :: "defaults")
  {
    hide Levels;
    var provenance, levels := map k | k in defaults :: "defaults", Levels(es);
    forall k ensures LayeredKey(defaults, es, levels, 0, defaults, provenance, k) {
    }
  }

  ghost predicate AgreeingUpTo(es: seq<Entry>, levels: seq<nat>, n: nat) {
    n <= |levels| && forall l :: 0 <= l < n ==> Agreeing(es, |es|, levels[l])
  }

  lemma NoConflict(es: seq<Entry>)
    requires AgreeingUpTo(es, Levels(es), |Levels(es)|)
    ensures !Conflicting(es)
  {
    hide Levels, PyEq;
    var levels := Levels(es);
    forall i, j | 0 <= i < j < |es| ensures !Clash(es[i], es[j]) {
      if Specificity(es[i]) == Specificity(es[j]) {
        assert Specificity(es[i]) in levels;
        var l :| 0 <= l < |levels| && levels[l] == Specificity(es[i]);
        forall k | k in es[i].values && k in es[j].values ensures PyEq(es[i].values[k], es[j].values[k]) {
          assert At(es[i], levels[l], k) && At(es[j], levels[l], k);
        }
      }
    }
  }

  /** The loop over the specificities that match. */
  method ResolveLayers(defaults: Values, es: seq<Entry>) returns (r: Result<Resolution, OverlayError>)
    ensures r.Ok? <==> !Conflicting(es)
    ensures r.Err? ==> r.error == Conflict
    ensures r.Ok? ==> IsResolution(defaults, es, r.value.values, r.value.provenance)
  {
    hide Layered, Gathered, Agreeing, Conflicting, Levels, DecidedBy, ValuesOf, SelectorsOf;
    var values, provenance := defaults, map k | k in defaults :: "defaults";
    var levels := Levels(es);
    LayeredStart(defaults, es);
    var n := 0;
    while n < |levels|
      invariant 0 <= n <= |levels|
      invariant Layered(defaults, es, levels, n, values, provenance) && AgreeingUpTo(es, levels, n)
    {
      var ok, supplied := GatherLayer(es, levels[n]);
      if !ok { return Err(Conflict); }
      LayeredOneMore(defaults, es, levels, n, values, provenance, supplied);
      values := values + ValuesOf(supplied);
      provenance := provenance + SelectorsOf(supplied);
      n := n + 1;
    }
    NoConflict(es);
    forall k ensures DecidedBy(defaults, es, k, values, provenance) {
      AllLevelsDecide(defaults, es, values, provenance, k);
    }
    r := Ok(Resolution(values, provenance));
  }

  /** Raises a conflict exactly when two matching entries of one specificity disagree about a key;
      otherwise every key has the value and provenance its most specific entries give it. */
  method ResolveOverlay(document: Document, identity: string, semanticPath: Option<string>)
    returns (r: Result<Resolution, OverlayError>)
    ensures match RequestOf(identity, semanticPath)
      case Err(e) => r == Err(e)
      case Ok(q) =>
        var es := Matching(document.entries, q);
        if Conflicting(es) then r == Err(Conflict)
        else r.Ok? && IsResolution(document.defaults, es, r.value.values, r.value.provenance)
  {
    hide RequestOf, Matching, Conflicting, IsResolution;
    match RequestOf(identity, semanticPath) {
      case Err(e) => r := Err(e);
      case Ok(q) => r := ResolveLayers(document.defaults, Matching(document.entries, q));
    }
  }

  // ----- what resolution promises -----

  /** A resolution is determined by the matching entries. */
  lemma ResolutionUnique(defaults: Values, es: seq<Entry>, a: Resolution, b: Resolution)
    requires IsResolution(defaults, es, a.values, a.provenance) && IsResolution(defaults, es, b.values, b.provenance)
    ensures a == b
  {
    hide DecidedBy;
    forall k ensures k in a.values <==> k in b.values { SameAtKey(defaults, es, a, b, k); }
    forall k | k in a.values ensures a.values[k] == b.values[k] { SameAtKey(defaults, es, a, b, k); }
    forall k ensures k in a.provenance <==> k in b.provenance { SameAtKey(defaults, es, a, b, k); }
    forall k | k in a.provenance ensures a.provenance[k] == b.provenance[k] { SameAtKey(defaults, es, a, b, k); }
    assert a.values == b.values && a.provenance == b.provenance;
  }

  lemma SameAtKey(defaults: Values, es: seq<Entry>, a: Resolution, b: Resolution, k: string)
    requires DecidedBy(defaults, es, k, a.values, a.provenance) && DecidedBy(defaults, es, k, b.values, b.provenance)
    ensures (k in a.values <==> k in b.values) && (k in a.provenance <==> k in b.provenance)
    ensures k in a.values <==> k in a.provenance
    ensures k in a.values ==> a.values[k] == b.values[k] && a.provenance[k] == b.provenance[k]
  {
    if !Unset(es, k) {
      var m: nat :| Top(es, k, m) && a.values[k] == es[m].values[k] && a.provenance[k] == es[m].selector.text;
      var n: nat :| Top(es, k, n) && b.values[k] == es[n].values[k] && b.provenance[k] == es[n].selector.text;
      assert m == n;
    }
  }

  /** Without a conflict, every other entry of the winning specificity that sets the key gives an
      equal value: which of them is the last only decides the provenance. */
  lemma WinnersAgree(es: seq<Entry>, k: string, m: nat, i: nat)
    requires !Conflicting(es) && Top(es, k, m)
    requires i < |es| && i != m && k in es[i].values && Specificity(es[i]) == Specificity(es[m])
    ensures PyEq(es[i].values[k], es[m].values[k])
  {
    hide PyEq;
    assert !Clash(es[i], es[m]);
  }

  lemma {:induction false} MatchingSorted(es: seq<Entry>, q: Request)
    requires Sorted(EntryLeq, es)
    ensures Sorted(EntryLeq, Matching(es, q))
  {
    hide EntryLeq, Selects;
    if es != [] {
      var n := |es| - 1;
      MatchingSorted(es[..n], q);
      forall e | e in Matching(es[..n], q) ensures EntryLeq(e, es[n]) {
        var i :| 0 <= i < n && es[..n][i] == e;
      }
    }
  }

  /** In a parsed document the winner is the greatest entry, by specificity, section and selector,
      among those that set the key. */
  lemma WinnerIsGreatest(raw: RawDocument, q: Request, k: string, m: nat, i: nat)
    requires ValidDocument(raw)
    requires var es := Matching(ParsedDocument(raw).entries, q); Top(es, k, m) && i < |es| && k in es[i].values
    ensures var es := Matching(ParsedDocument(raw).entries, q); EntryLeq(es[i], es[m])
  {
    hide ValidSection, Matching, StringLeq, EntryLeq;
    var entries := ToEntries(raw.models, Models) + ToEntries(raw.fields, Fields);
    EntryOrder();
    SortBySorted(EntryLeq, entries);
    MatchingSorted(ParsedDocument(raw).entries, q);
    TopIsGreatest(Matching(ParsedDocument(raw).entries, q), k, m, i);
  }

  lemma TopIsGreatest(es: seq<Entry>, k: string, m: nat, i: nat)
    requires Sorted(EntryLeq, es) && Top(es, k, m) && i < |es| && k in es[i].values
    ensures EntryLeq(es[i], es[m])
  {
    hide StringLeq;
    EntryOrder();
  }

  lemma ClashSymmetric(e: Entry, f: Entry)
    ensures Clash(e, f) <==> Clash(f, e)
  {
    hide PyEq;
    if Clash(e, f) {
      var k :| k in e.values && k in f.values && !PyEq(e.values[k], f.values[k]);
      if PyEq(f.values[k], e.values[k]) { PyEqSymmetric(f.values[k], e.values[k]); }
    }
    if Clash(f, e) {
      var k :| k in f.values && k in e.values && !PyEq(f.values[k], e.values[k]);
      if PyEq(e.values[k], f.values[k]) { PyEqSymmetric(e.values[k], f.values[k]); }
    }
  }

  /** Whether entries conflict does not depend on the order they are compared in. */
  lemma ConflictIgnoresOrder(a: seq<Entry>, b: seq<Entry>)
    requires multiset(a) == multiset(b) && Conflicting(a)
    ensures Conflicting(b)
  {
    hide Clash;
    var i, j :| 0 <= i < j < |a| && Clash(a[i], a[j]);
    var k, l := PermutedPair(a, b, i, j);
    ClashSymmetric(a[i], a[j]);
    if k < l { assert Clash(b[k], b[l]); } else { assert Clash(b[l], b[k]); }
  }

  // ----- the order of the file -----

  lemma SectionPermuted(a: seq<RawEntry>, b: seq<RawEntry>, section: Section)
    requires multiset(a) == multiset(b) && ValidSection(a, section)
    ensures ValidSection(b, section)
    ensures multiset(ToEntries(a, section)) == multiset(ToEntries(b, section))
  {
    hide ValidEntry;
    forall i | 0 <= i < |b| ensures ValidEntry(b[i], section) { assert b[i] in multiset(a); }
    var f := (raw: RawEntry) =>
      if ValidEntry(raw, section) then ToEntry(raw, section) else Entry(section, Blank(), map[]);
    MappedMultiset(f, a, b);
    assert Mapped(f, a) == ToEntries(a, section) && Mapped(f, b) == ToEntries(b, section);
  }

  function Blank(): Selector { Selector("", "", Every, None, 0) }

  /** Within one document the key tells entries apart. */
  lemma KeySeparates(raw: RawDocument)
    requires ValidDocument(raw) && IsTable(raw)
    ensures Separates(EntryLeq, ToEntries(raw.models, Models) + ToEntries(raw.fields, Fields))
  {
    hide ValidEntry, EntryLeq, ParseSelector;
    var models, fields := ToEntries(raw.models, Models), ToEntries(raw.fields, Fields);
    EntryOrder();
    SameSelectorSameEntry(raw.models, Models);
    SameSelectorSameEntry(raw.fields, Fields);
    forall e, f | e in models + fields && f in models + fields && EntryLeq(e, f) && EntryLeq(f, e) ensures e == f {
      assert e in models <==> e.section == Models;
      assert f in models <==> f.section == Models;
    }
  }

  lemma SameSelectorSameEntry(table: seq<RawEntry>, section: Section)
    requires ValidSection(table, section) && DistinctSelectors(table)
    ensures forall e, f :: (e in ToEntries(table, section) && f in ToEntries(table, section) &&
      e.selector.text == f.selector.text) ==> e == f
    ensures forall e :: e in ToEntries(table, section) ==> e.section == section
  {
    hide ValidEntry;
    var es := ToEntries(table, section);
    forall i | 0 <= i < |es| ensures es[i].selector.text == table[i].selector { SelectorKeepsText(table[i], section); }
  }

  lemma SelectorKeepsText(raw: RawEntry, section: Section)
    requires ValidEntry(raw, section)
    ensures ToEntry(raw, section).selector.text == raw.selector
  {
  }

  /** Files that list the same entries in another order parse to the same document, so every
      resolution, conflict and provenance is the same. */
  lemma FileOrderForgotten(a: RawDocument, b: RawDocument)
    requires ValidDocument(a) && IsTable(a)
    requires a.defaults == b.defaults
    requires multiset(a.models) == multiset(b.models) && multiset(a.fields) == multiset(b.fields)
    ensures ValidDocument(b) && ParsedDocument(a) == ParsedDocument(b)
  {
    hide ValidSection, SortBy, EntryLeq, ToEntries;
    SectionPermuted(a.models, b.models, Models);
    SectionPermuted(a.fields, b.fields, Fields);
    KeySeparates(a);
    EntryOrder();
    SortByCanonical(EntryLeq, ToEntries(a.models, Models) + ToEntries(a.fields, Fields),
      ToEntries(b.models, Models) + ToEntries(b.fields, Fields));
  }
}
