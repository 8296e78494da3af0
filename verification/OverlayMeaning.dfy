/** What overlay files say: which selectors are accepted and mean what, which values are, and when two of
    them are equal, each in terms of the texts and values themselves. */
module OverlayMeaning {
  import opened Text
  import opened Ordering
  import opened OverlaySelectors
  import opened Overlays
  import Identity

  // ----- paths -----

  /** Every segment is `*` or a proper path segment. */
  ghost predicate ProperPath(path: string) {
    var segments := Split(path, '.');
    forall i :: 0 <= i < |segments| ==> segments[i] == "*" || Identity.IsPathSegment(segments[i])
  }

  lemma PathOfDeclaration(domain: string, name: string, segments: seq<string>)
    requires Identity.IsIdentifier(domain) && Identity.IsIdentifier(name) && segments != []
    requires forall i :: 0 <= i < |segments| ==> '.' !in segments[i]
    ensures Identity.ParsePath(domain + "." + name + "@0#" + Join(segments, '.')).Ok? <==>
      forall i :: 0 <= i < |segments| ==> Identity.IsPathSegment(segments[i])
  {
    var d := Identity.Declaration(domain, name, 0);
    var p := Identity.SemanticPath(d, segments);
    var text := domain + "." + name + "@0#" + Join(segments, '.');
    IdentifierIsDomain(domain);
    assert Identity.RenderPath(p) == text by { ZeroText(d, segments); }
    hide Identity.IsPathSegment, Identity.ParsePath, Join;
    Identity.PathRoundTrip(p, text);
    if Identity.ParsePath(text).Ok? {
      var q := Identity.ParsePath(text).value;
      Identity.PathRoundTrip(q, text);
      SameSegments(p, q);
    }
  }

  lemma ZeroText(d: Identity.Declaration, segments: seq<string>)
    requires d.version == 0
    ensures Identity.RenderPath(Identity.SemanticPath(d, segments)) ==
      d.domain + "." + d.name + "@0#" + Join(segments, '.')
  {
    assert Decimal(0) == "0";
  }

  lemma SameSegments(p: Identity.SemanticPath, q: Identity.SemanticPath)
    requires Identity.ValidDeclaration(p.declaration) && Identity.ValidPath(q)
    requires Identity.RenderPath(p) == Identity.RenderPath(q) && p.segments != []
    requires forall i :: 0 <= i < |p.segments| ==> '.' !in p.segments[i]
    ensures p.segments == q.segments
  {
    hide Identity.IsPathSegment, Identity.Render, Join;
    Identity.RenderHasNoHash(p.declaration);
    Identity.RenderHasNoHash(q.declaration);
    FirstSeparator(Identity.Render(p.declaration), '#', Join(p.segments, '.'));
    FirstSeparator(Identity.Render(q.declaration), '#', Join(q.segments, '.'));
    assert Identity.RenderPath(p) == Identity.Render(p.declaration) + ['#'] + Join(p.segments, '.');
    assert Identity.RenderPath(q) == Identity.Render(q.declaration) + ['#'] + Join(q.segments, '.');
    forall i | 0 <= i < |q.segments| ensures '.' !in q.segments[i] {
      Identity.SegmentHasNoSeparator(q.segments[i], '.');
    }
    SplitOfJoin(p.segments, '.');
    SplitOfJoin(q.segments, '.');
  }

  lemma {:induction false} CharInJoin(parts: seq<string>, separator: char, c: char)
    requires c != separator
    ensures c in Join(parts, separator) <==> exists i :: 0 <= i < |parts| && c in parts[i]
  {
    if |parts| > 1 {
      var rest := parts[1..];
      CharInJoin(rest, separator, c);
      assert c in Join(parts, separator) <==> c in parts[0] || c in Join(rest, separator);
      assert forall i :: 0 <= i < |rest| ==> rest[i] == parts[i + 1];
      if i :| 0 <= i < |parts| && c in parts[i] && i > 0 { assert c in rest[i - 1]; }
    }
  }

  lemma CharInSegments(path: string, c: char)
    requires c != '.'
    ensures c in path <==> exists i :: 0 <= i < |Split(path, '.')| && c in Split(path, '.')[i]
  {
    JoinOfSplit(path, '.');
    CharInJoin(Split(path, '.'), '.', c);
  }

  lemma ProperSegmentHas(segment: string)
    requires Identity.IsPathSegment(segment)
    ensures '*' !in segment && segment != "*" && '#' !in segment
  {
    Identity.SegmentHasNoSeparator(segment, '#');
    assert forall i :: 0 <= i < |"[]"| ==> "[]"[i] != '*';
    if Identity.IsMarked(segment, "[]") { Identity.MarkedHasNoSeparator(segment, "[]", '*'); }
    else if Identity.IsMarked(segment, "{}") { Identity.MarkedHasNoSeparator(segment, "{}", '*'); }
    else if Identity.IsMarked(segment, "{key}") { Identity.MarkedHasNoSeparator(segment, "{key}", '*'); }
  }

  /** A path selector is accepted exactly when each of its segments is a wildcard or proper. */
  lemma ValidPathMeans(domain: string, name: string, path: string)
    requires Identity.IsIdentifier(domain) && Identity.IsIdentifier(name)
    ensures ValidPathSelector(domain + "." + name, path) <==> ProperPath(path)
  {
    hide Identity.IsPathSegment, Identity.ParsePath, Identity.IsIdentifier, Split, Join;
    var segments, declaration := Split(path, '.'), domain + "." + name;
    var prefix := declaration + "@0#";
    JoinOfSplit(path, '.');
    CharInSegments(path, '*');
    CharInSegments(path, '#');
    PathOfDeclaration(domain, name, segments);
    forall i | 0 <= i < |segments|
      ensures Identity.ParsePath(prefix + segments[i]).Ok? <==> Identity.IsPathSegment(segments[i])
    {
      PathOfDeclaration(domain, name, [segments[i]]);
      JoinOne(segments[i], '.');
      assert [segments[i]][0] == segments[i];
    }
    forall i | 0 <= i < |segments| && Identity.IsPathSegment(segments[i])
      ensures '*' !in segments[i] && segments[i] != "*" && '#' !in segments[i]
    {
      ProperSegmentHas(segments[i]);
    }
  }

  // ----- selectors -----

  /** The selector that is written as declaration, `@`, version and, for fields, `#` and a path. */
  ghost predicate Writes(value: string, section: Section, s: Selector, domain: string, name: string) {
    var head := domain + "." + name + "@" + VersionText(s.version);
    && Identity.IsIdentifier(domain) && Identity.IsIdentifier(name) && ProperSelector(s.version)
    && s.text == value && s.declaration == domain + "." + name
    && (section.Models? ==> value == head && s.path == None)
    && (section.Fields? ==> value == head + "#" + if s.path.Some? then s.path.value else "")
    && (s.path.Some? ==> s.path.value != "" && ProperPath(s.path.value))
  }

  /** How specific a selector is: with a path one path of one version before anything wider, and without
      one version before a range before all. */
  ghost predicate Ranks(s: Selector) {
    s.specificity ==
      if s.path.Some? then (if '*' in s.path.value || !s.version.Exactly? then 4 else 5)
      else if s.version.Exactly? then 3 else if s.version.Range? then 2 else 1
  }

  lemma VersionTextIsPlain(v: VersionSelector)
    requires ProperSelector(v)
    ensures '#' !in VersionText(v) && VersionText(v) != ""
  {
    hide ParseVersionSelector, ParseBound, Split;
    match v
    case Every =>
    case Exactly(n) =>
    case Range(bounds) =>
      BoundTextIsPlain(bounds[0]);
      if |bounds| == 2 { BoundTextIsPlain(bounds[1]); }
  }

  lemma BoundTextIsPlain(b: Bound)
    ensures '#' !in BoundText(b) && BoundText(b) != ""
  {
    var digits := Decimal(b.version);
    assert '#' !in digits;
    assert ">="[0] == '>' && ">="[1] == '=';
  }

  lemma HeadHasNoHash(domain: string, name: string, version: string)
    requires Identity.IsIdentifier(domain) && Identity.IsIdentifier(name) && '#' !in version
    ensures '#' !in domain + "." + name + "@" + version
  {
    IdentifierLacks(domain, '#');
    IdentifierLacks(name, '#');
  }

  lemma HeadMatches(domain: string, name: string, version: string)
    requires Identity.IsIdentifier(domain) && Identity.IsIdentifier(name) && '#' !in version && version != ""
    ensures MatchDeclaration(domain + "." + name + "@" + version) == Some(Split3(domain, name, version))
  {
    hide MatchDeclaration, Identity.IsIdentifier;
    var text := domain + "." + name + "@" + version;
    assert text == Unsplit(Split3(domain, name, version));
    MatchesInOneWay(text, Split3(domain, name, version));
  }

  lemma WrittenParses(value: string, section: Section, s: Selector, domain: string, name: string)
    requires Writes(value, section, s, domain, name) && Ranks(s)
    ensures ParseSelector(value, section) == Some(s)
  {
    hide MatchDeclaration, ParseVersionSelector, ValidPathSelector, Identity.IsIdentifier, ProperPath, VersionText,
         ProperSelector, IndexOf;
    var version := VersionText(s.version);
    var head := domain + "." + name + "@" + version;
    VersionTextIsPlain(s.version);
    HeadHasNoHash(domain, name, version);
    HeadMatches(domain, name, version);
    VersionSelectorRoundTrip(version, s.version);
    if section.Models? {
      NoSeparator(value, '#');
    } else {
      var path := if s.path.Some? then s.path.value else "";
      assert value == head + ['#'] + path;
      FirstSeparator(head, '#', path);
      if s.path.Some? { ValidPathMeans(domain, name, path); }
    }
  }

  lemma ParsedIsWritten(value: string, section: Section) returns (domain: string, name: string)
    requires ParseSelector(value, section).Some?
    ensures Writes(value, section, ParseSelector(value, section).value, domain, name)
    ensures Ranks(ParseSelector(value, section).value)
  {
    hide MatchDeclaration, ParseVersionSelector, ValidPathSelector, Identity.IsIdentifier, ProperPath, VersionText,
         ProperSelector, IndexOf;
    var s, hash := ParseSelector(value, section).value, IndexOf(value, '#');
    var d := MatchDeclaration(value[..hash]).value;
    domain, name := d.domain, d.name;
    MatchesInOneWay(value[..hash], d);
    VersionSelectorRoundTrip(d.version, s.version);
    assert value[..hash] == domain + "." + name + "@" + d.version;
    if section.Models? {
      assert value[..hash] == value;
    } else {
      assert value == value[..hash] + "#" + value[hash + 1..];
      if s.path.Some? { ValidPathMeans(domain, name, s.path.value); }
    }
  }

  /** A selector is accepted exactly in the one spelling of its parts, and ranks by what it leaves open. */
  lemma SelectorRoundTrip(value: string, section: Section, s: Selector)
    ensures ParseSelector(value, section) == Some(s) <==>
      Ranks(s) && exists domain, name :: Writes(value, section, s, domain, name)
  {
    hide ParseSelector, Writes, Ranks;
    if ParseSelector(value, section) == Some(s) { var domain, name := ParsedIsWritten(value, section); }
    if domain, name :| Ranks(s) && Writes(value, section, s, domain, name) {
      WrittenParses(value, section, s, domain, name);
    }
  }

  /** An entry speaks of a subject exactly if it names the declaration, lets the version through, and has
      no path or one that the asked path fills in. */
  lemma SelectsMeans(e: Entry, q: Request)
    ensures Selects(e, q) <==>
      e.selector.declaration == q.declaration && VersionMatches(e.selector.version, q.version) &&
      (e.selector.path == None ||
       (q.path.Some? && exists chosen :: Fills(chosen, e.selector.path.value) && q.path.value == Join(chosen, '.')))
  {
    hide PathMatches, Fills, VersionMatches;
    if e.selector.path.Some? && q.path.Some? { PathMatchesMeans(e.selector.path.value, q.path.value); }
  }

  // ----- values -----

  /** Occurs in the value, at any depth, itself included. */
  ghost predicate Occurs(x: Value, v: Value)
    decreases v
  {
    x == v || (v.List? && exists i :: 0 <= i < |v.items| && Occurs(x, v.items[i])) ||
    (v.Table? && exists k :: k in v.members && Occurs(x, v.members[k]))
  }

  /** No array anywhere in the value holds an array or a table. */
  ghost predicate FlatArrays(v: Value) {
    forall x :: Occurs(x, v) && x.List? ==> forall i :: 0 <= i < |x.items| ==> !x.items[i].List? && !x.items[i].Table?
  }

  lemma {:induction false} FlatMembers(v: Value)
    requires v.Table?
    ensures FlatArrays(v) <==> forall k :: k in v.members ==> FlatArrays(v.members[k])
  {
    if FlatArrays(v) {
      forall k, x | k in v.members && Occurs(x, v.members[k]) ensures Occurs(x, v) { }
    }
  }

  lemma {:induction false} FlatItems(v: Value)
    requires v.List?
    ensures FlatArrays(v) <==> forall i :: 0 <= i < |v.items| ==> !v.items[i].List? && !v.items[i].Table?
  {
    assert Occurs(v, v);
    if forall i :: 0 <= i < |v.items| ==> !v.items[i].List? && !v.items[i].Table? {
      forall x, i | 0 <= i < |v.items| && Occurs(x, v.items[i]) ensures !x.List? { }
    }
  }

  /** A value is accepted exactly when its arrays are flat; tables may nest to any depth. */
  lemma {:induction false} ValidValueMeans(v: Value)
    ensures ValidValue(v) <==> FlatArrays(v)
    decreases v
  {
    match v
    case List(items) => FlatItems(v);
    case Table(members) =>
      forall k | k in members ensures ValidValue(members[k]) <==> FlatArrays(members[k]) {
        ValidValueMeans(members[k]);
      }
      hide FlatArrays;
      FlatMembers(v);
    case _ =>
  }

  /** A table of values is accepted exactly when each of them is. */
  lemma ValidValuesMean(values: map<string, Value>)
    ensures ValidValues(values) <==> forall k :: k in values ==> FlatArrays(values[k])
  {
    hide ValidValue, FlatArrays;
    forall k | k in values ensures ValidValue(values[k]) <==> FlatArrays(values[k]) { ValidValueMeans(values[k]); }
  }

  /** The value with every number written as a float, so that numbers of all kinds look alike. */
  ghost function Canonical(v: Value): Value
    decreases v
  {
    match v
    case Int(i) => Fraction(Finite(i as real))
    case Bool(b) => Fraction(Finite(if b then 1.0 else 0.0))
    case List(items) => List(seq(|items|, i requires 0 <= i < |items| => Canonical(items[i])))
    case Table(members) => Table(map k | k in members :: Canonical(members[k]))
    case _ => v
  }

  ghost predicate HasNaN(v: Value) { Occurs(Fraction(NotANumber), v) }

  lemma {:induction false} EqualItems(s: seq<Value>, t: seq<Value>)
    ensures Canonical(List(s)) == Canonical(List(t)) <==>
      |s| == |t| && forall i :: 0 <= i < |s| ==> Canonical(s[i]) == Canonical(t[i])
  {
    var a, b := Canonical(List(s)).items, Canonical(List(t)).items;
    if a == b { forall i | 0 <= i < |s| ensures Canonical(s[i]) == Canonical(t[i]) { assert a[i] == b[i]; } }
  }

  lemma {:induction false} EqualMembers(s: map<string, Value>, t: map<string, Value>)
    ensures Canonical(Table(s)) == Canonical(Table(t)) <==>
      s.Keys == t.Keys && forall k :: k in s && k in t ==> Canonical(s[k]) == Canonical(t[k])
  {
    var a, b := Canonical(Table(s)).members, Canonical(Table(t)).members;
    assert a.Keys == s.Keys && b.Keys == t.Keys;
    if a == b { forall k | k in s && k in t ensures Canonical(s[k]) == Canonical(t[k]) { assert a[k] == b[k]; } }
  }

  /** Two values are equal exactly when they are the same with all numbers written alike, and hold no
      not-a-number. */
  lemma {:induction false} PyEqMeans(a: Value, b: Value)
    ensures PyEq(a, b) <==> Canonical(a) == Canonical(b) && !HasNaN(a)
    decreases a
  {
    match (a, b) {
      case (List(s), List(t)) =>
        EqualItems(s, t);
        if |s| == |t| {
          forall i | 0 <= i < |s| ensures PyEq(s[i], t[i]) <==> Canonical(s[i]) == Canonical(t[i]) && !HasNaN(s[i]) {
            PyEqMeans(s[i], t[i]);
          }
        }
      case (Table(s), Table(t)) =>
        EqualMembers(s, t);
        forall k | k in s && k in t ensures PyEq(s[k], t[k]) <==> Canonical(s[k]) == Canonical(t[k]) && !HasNaN(s[k]) {
          PyEqMeans(s[k], t[k]);
        }
        assert HasNaN(a) <==> exists k :: k in s && HasNaN(s[k]);
      case _ =>
    }
  }

  /** Entries are listed by specificity, then fields before models, then by the selector's text. */
  lemma EntriesAreOrdered(a: Entry, b: Entry)
    ensures EntryLeq(a, b) <==>
      a.selector.specificity < b.selector.specificity ||
      (a.selector.specificity == b.selector.specificity &&
       if a.section == b.section then StringLeq(a.selector.text, b.selector.text) else a.section.Fields?)
  {
    hide StringLeq;
    SectionOrder();
  }

  lemma SectionOrder()
    ensures StringLeq(SectionName(Fields), SectionName(Models)) && !StringLeq(SectionName(Models), SectionName(Fields))
  {
    assert "fields"[0] == 'f' && "models"[0] == 'm';
  }

  // ----- requests -----

  /** The path asked about belongs to the declaration, or none is asked about. */
  ghost predicate AsksFor(d: Identity.Declaration, text: Option<string>, path: Option<string>) {
    match text
    case None => path == None
    case Some(t) =>
      exists p :: Identity.ParsePath(t) == Ok(p) && p.declaration == d && path == Some(Join(p.segments, '.'))
  }

  ghost predicate Asks(d: Identity.Declaration, text: Option<string>, q: Request) {
    q.declaration == d.domain + "." + d.name && q.version == d.version && AsksFor(d, text, q.path)
  }

  /** A request is understood exactly for a canonical identity without hyphen in its domain, and a canonical
      path of that declaration if one is given; it then asks for that declaration, version and path. */
  lemma RequestMeans(identity: string, text: Option<string>, q: Request)
    ensures RequestOf(identity, text) == Ok(q) <==>
      exists d :: Addressable(d, identity) && Asks(d, text, q)
    ensures RequestOf(identity, text) == Err(InvalidIdentity) <==> !exists d :: Addressable(d, identity)
  {
    hide Identity.ParsePath, Identity.Render, Join, ParseRequest, AsksFor;
    if d :| Addressable(d, identity) { RequestPath(d, identity, text); }
    if ParseRequest(identity).Some? { var d := RequestParts(identity); }
    if RequestOf(identity, text) == Ok(q) {
      var d := RequestParts(identity);
      RequestPath(d, identity, text);
    }
    if d :| Addressable(d, identity) && Asks(d, text, q) {
      RequestFound(d, identity);
      RequestPath(d, identity, text);
      PathAsked(d, text, q.path);
    }
  }

  lemma PathAsked(d: Identity.Declaration, text: Option<string>, path: Option<string>)
    requires AsksFor(d, text, path)
    ensures text.None? ==> path == None
    ensures text.Some? ==>
      Identity.ParsePath(text.value).Ok? && Identity.ParsePath(text.value).value.declaration == d &&
      path == Some(Join(Identity.ParsePath(text.value).value.segments, '.'))
  {
  }

  lemma RequestPath(d: Identity.Declaration, identity: string, text: Option<string>)
    requires Addressable(d, identity)
    ensures var r := RequestOf(identity, text);
      if text.None? then r == Ok(Request(d.domain + "." + d.name, d.version, None))
      else
        match Identity.ParsePath(text.value)
        case Err(_) => r == Err(InvalidPath)
        case Ok(p) =>
          if p.declaration != d then r == Err(ForeignPath)
          else r == Ok(Request(d.domain + "." + d.name, d.version, Some(Join(p.segments, '.'))))
    ensures text.None? ==> AsksFor(d, text, None)
    ensures text.Some? ==>
      match Identity.ParsePath(text.value)
      case Err(_) => true
      case Ok(p) => p.declaration == d ==> AsksFor(d, text, Some(Join(p.segments, '.')))
  {
    hide Identity.ParsePath, Identity.Render, Join, ParseRequest, Identity.ValidPath;
    RequestFound(d, identity);
    Identity.DeclarationRoundTrip(d, identity);
    if text.Some? && Identity.ParsePath(text.value).Ok? {
      var p := Identity.ParsePath(text.value).value;
      Identity.PathRoundTrip(p, text.value);
      Identity.DeclarationRoundTrip(p.declaration, identity);
      RequestedPath(d, p);
    }
  }
}
