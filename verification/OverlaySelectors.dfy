/** Overlay selectors: which declarations, versions and paths an entry addresses, and how
    specifically (cli/src/modelable/overlays.py). */
module OverlaySelectors {
  import opened Text
  import opened Identity

  /** A domain, a name and whatever follows the `@`. */
  datatype Split3 = Split3(domain: string, name: string, version: string)

  function DeclarationText(d: Split3): string { d.domain + "." + d.name }

  /** The text around the first dot and the first `@` after it. */
  function FirstSplit(text: string): Option<Split3> {
    var dot := IndexOf(text, '.');
    if dot == |text| then None
    else
      var rest := text[dot + 1..];
      var at := IndexOf(rest, '@');
      if at == |rest| then None else Some(Split3(text[..dot], rest[..at], rest[at + 1..]))
  }

  predicate PartsMatch(d: Split3) {
    IsIdentifier(d.domain) && IsIdentifier(d.name) && d.version != "" && '#' !in d.version
  }

  function Unsplit(d: Split3): string { d.domain + ['.'] + (d.name + ['@'] + d.version) }

  /** The declaration pattern: identifiers around a dot, then `@` and at least one character, none
      of them `#`. */
  function MatchDeclaration(text: string): Option<Split3> {
    match FirstSplit(text)
    case Some(d) => if PartsMatch(d) then Some(d) else None
    case None => None
  }

  /** Neither identifier can hold the separator that ends it, so the pattern matches in one way. */
  lemma MatchesInOneWay(text: string, d: Split3)
    ensures MatchDeclaration(text) == Some(d) <==> PartsMatch(d) && text == Unsplit(d)
  {
    hide PartsMatch, FirstSplit;
    if MatchDeclaration(text) == Some(d) { UnsplitOfSplit(text); }
    if PartsMatch(d) && text == Unsplit(d) { SplitOfParts(d); }
  }

  lemma UnsplitOfSplit(text: string)
    requires FirstSplit(text).Some?
    ensures Unsplit(FirstSplit(text).value) == text
  {
    hide IndexOf;
    var dot := IndexOf(text, '.');
    Rejoin(text, dot);
    var rest := text[dot + 1..];
    Rejoin(rest, IndexOf(rest, '@'));
  }

  lemma Rejoin(text: string, i: nat)
    requires i < |text|
    ensures text == text[..i] + ([text[i]] + text[i + 1..]) == text[..i] + [text[i]] + text[i + 1..]
  {
  }

  lemma IdentifierLacks(s: string, c: char)
    requires IsIdentifier(s) && !IsLetter(c) && !IsDigit(c)
    ensures c !in s
  {
  }

  lemma SplitOfParts(d: Split3)
    requires PartsMatch(d)
    ensures FirstSplit(Unsplit(d)) == Some(d)
  {
    hide IsIdentifier, IndexOf;
    IdentifierLacks(d.domain, '.');
    IdentifierLacks(d.name, '@');
    FirstSeparator(d.domain, '.', d.name + ['@'] + d.version);
    FirstSeparator(d.name, '@', d.version);
  }

  // ----- versions -----

  datatype Bound = AtLeast(version: nat) | Below(version: nat)

  datatype VersionSelector = Every | Exactly(version: nat) | Range(bounds: seq<Bound>)

  predicate Holds(b: Bound, version: nat) {
    match b
    case AtLeast(n) => version >= n
    case Below(n) => version < n
  }

  predicate VersionMatches(s: VersionSelector, version: nat) {
    match s
    case Every => true
    case Exactly(n) => version == n
    case Range(bounds) => forall i :: 0 <= i < |bounds| ==> Holds(bounds[i], version)
  }

  /** One side of a range; anything but a bare operator and canonical digits is refused, which
      also covers surrounding whitespace. */
  function ParseBound(part: string): Option<Bound> {
    if |part| > 2 && part[..2] == ">=" && IsCanonicalDecimal(part[2..]) then Some(AtLeast(ParseDecimal(part[2..])))
    else if |part| > 1 && part[0] == '<' && IsCanonicalDecimal(part[1..]) then Some(Below(ParseDecimal(part[1..])))
    else None
  }

  predicate Reversed(bounds: seq<Bound>) {
    |bounds| == 2 && bounds[0].AtLeast? && bounds[1].Below? && bounds[0].version >= bounds[1].version
  }

  function ParseVersionSelector(text: string): Option<VersionSelector> {
    if text == "*" then Some(Every)
    else if IsDecimal(text) then
      if IsCanonicalDecimal(text) then Some(Exactly(ParseDecimal(text))) else None
    else
      var parts := Split(text, ',');
      if |parts| > 2 || (|parts| == 2 && !(parts[1] != "" && parts[1][0] == '<')) then None
      else if |parts| == 1 then
        match ParseBound(parts[0])
        case Some(b) => Some(Range([b]))
        case None => None
      else
        match (ParseBound(parts[0]), ParseBound(parts[1]))
        case (Some(b), Some(c)) => if Reversed([b, c]) then None else Some(Range([b, c]))
        case _ => None
  }

  /** An accepted selector addresses some version, unless it asks for versions below zero. */
  lemma SelectsSomethingExactly(text: string)
    requires ParseVersionSelector(text).Some?
    ensures var s := ParseVersionSelector(text).value;
      (exists v :: VersionMatches(s, v)) <==> !(s.Range? && Below(0) in s.bounds)
  {
    var s := ParseVersionSelector(text).value;
    if s.Range? && Below(0) in s.bounds {
      var i :| 0 <= i < |s.bounds| && s.bounds[i] == Below(0);
      forall v ensures !VersionMatches(s, v) { assert !Holds(s.bounds[i], v); }
    } else {
      var v: nat := match s
        case Every => 0
        case Exactly(n) => n
        case Range(bounds) => if bounds[0].AtLeast? then bounds[0].version else 0;
      if s.Range? {
        var parts := Split(text, ',');
        assert |s.bounds| == |parts| <= 2;
        assert |s.bounds| == 2 ==> parts[1][0] == '<' && s.bounds[1].Below?;
        forall i | 0 <= i < |s.bounds| ensures Holds(s.bounds[i], v) {
          assert s.bounds[i] in s.bounds;
        }
      }
      assert VersionMatches(s, v);
    }
  }

  /** The least version the bounds let through from below. */
  function LowEnd(bounds: seq<Bound>): nat {
    if bounds == [] then 0
    else
      var rest := LowEnd(bounds[1..]);
      if bounds[0].AtLeast? && bounds[0].version > rest then bounds[0].version else rest
  }

  /** The least version above all that the bounds let through, if there is one. */
  function HighEnd(bounds: seq<Bound>): Option<nat> {
    if bounds == [] then None
    else
      var rest := HighEnd(bounds[1..]);
      if bounds[0].Below? && (rest.None? || bounds[0].version < rest.value) then Some(bounds[0].version) else rest
  }

  function Bounds(s: VersionSelector): seq<Bound> {
    match s
    case Every => []
    case Exactly(n) => [AtLeast(n), Below(n + 1)]
    case Range(bounds) => bounds
  }

  predicate Between(bounds: seq<Bound>, version: nat) {
    LowEnd(bounds) <= version && (HighEnd(bounds).Some? ==> version < HighEnd(bounds).value)
  }

  /** Bounds let through exactly the versions between their ends. */
  lemma {:induction false} BoundsAreTheirEnds(bounds: seq<Bound>, version: nat)
    ensures VersionMatches(Range(bounds), version) <==> Between(bounds, version)
  {
    if bounds != [] {
      BoundsAreTheirEnds(bounds[1..], version);
      var rest := bounds[1..];
      assert VersionMatches(Range(bounds), version) <==>
        Holds(bounds[0], version) && VersionMatches(Range(rest), version) by {
        assert bounds == [bounds[0]] + rest;
        if VersionMatches(Range(bounds), version) {
          forall i | 0 <= i < |rest| ensures Holds(rest[i], version) { assert Holds(bounds[i + 1], version); }
        }
      }
    }
  }

  lemma SelectorIsItsEnds(s: VersionSelector, version: nat)
    ensures VersionMatches(s, version) <==> Between(Bounds(s), version)
  {
    BoundsAreTheirEnds(Bounds(s), version);
    if s.Exactly? {
      hide LowEnd, HighEnd;
      var bounds := Bounds(s);
      assert VersionMatches(Range(bounds), version) <==> version == s.version by {
        assert bounds[0] == AtLeast(s.version) && bounds[1] == Below(s.version + 1);
        assert forall i :: 0 <= i < |bounds| ==> bounds[i] == bounds[0] || bounds[i] == bounds[1];
      }
    }
  }

  predicate EndsNoLater(high: Option<nat>, limit: Option<nat>) {
    limit.Some? ==> high.Some? && high.value <= limit.value
  }

  /** `t` lets nothing through, or begins and ends within `s`. */
  predicate VersionsWithin(t: VersionSelector, s: VersionSelector) {
    var low, high := LowEnd(Bounds(t)), HighEnd(Bounds(t));
    (high.Some? && high.value <= low) || (LowEnd(Bounds(s)) <= low && EndsNoLater(high, HighEnd(Bounds(s))))
  }

  /** One version selector addresses only versions of another exactly when its ends lie within. */
  lemma VersionsWithinExactly(t: VersionSelector, s: VersionSelector)
    ensures (forall v :: VersionMatches(t, v) ==> VersionMatches(s, v)) <==> VersionsWithin(t, s)
  {
    hide VersionMatches, LowEnd, HighEnd, Bounds;
    forall v: nat ensures VersionMatches(t, v) <==> Between(Bounds(t), v) { SelectorIsItsEnds(t, v); }
    forall v: nat ensures VersionMatches(s, v) <==> Between(Bounds(s), v) { SelectorIsItsEnds(s, v); }
    if forall v :: VersionMatches(t, v) ==> VersionMatches(s, v) {
      EndsFromInclusion(t, s);
    }
  }

  lemma EndsFromInclusion(t: VersionSelector, s: VersionSelector)
    requires forall v :: VersionMatches(t, v) ==> VersionMatches(s, v)
    ensures VersionsWithin(t, s)
  {
    hide VersionMatches, LowEnd, HighEnd, Bounds;
    var low, high, limit := LowEnd(Bounds(t)), HighEnd(Bounds(t)), HighEnd(Bounds(s));
    SelectorIsItsEnds(t, low);
    SelectorIsItsEnds(s, low);
    if limit.Some? && high.Some? && low < high.value {
      SelectorIsItsEnds(t, high.value - 1);
      SelectorIsItsEnds(s, high.value - 1);
    } else if limit.Some? && high.None? {
      SelectorIsItsEnds(t, low + limit.value);
      SelectorIsItsEnds(s, low + limit.value);
    }
  }

  function BoundText(b: Bound): string {
    match b
    case AtLeast(n) => ">=" + Decimal(n)
    case Below(n) => ['<'] + Decimal(n)
  }

  /** The one spelling of a version selector. */
  function VersionText(s: VersionSelector): string {
    match s
    case Every => "*"
    case Exactly(n) => Decimal(n)
    case Range(bounds) =>
      if |bounds| == 1 then BoundText(bounds[0])
      else if |bounds| == 2 then BoundText(bounds[0]) + [','] + BoundText(bounds[1])
      else ""
  }

  /** One bound, or two of which the second is an upper bound above any lower one. */
  predicate ProperSelector(s: VersionSelector) {
    s.Range? ==> |s.bounds| == 1 || (|s.bounds| == 2 && s.bounds[1].Below? && !Reversed(s.bounds))
  }

  lemma BoundRoundTrip(part: string, b: Bound)
    ensures ParseBound(part) == Some(b) <==> part == BoundText(b)
  {
    if ParseBound(part) == Some(b) { TextOfBound(part); }
    if part == BoundText(b) { BoundOfText(b); }
  }

  lemma TextOfBound(part: string)
    requires ParseBound(part).Some?
    ensures part == BoundText(ParseBound(part).value)
  {
    hide Decimal, ParseDecimal, IsCanonicalDecimal;
    if part[..2] == ">=" && IsCanonicalDecimal(part[2..]) {
      DecimalOfParse(part[2..]);
      assert part == part[..2] + part[2..];
    } else {
      DecimalOfParse(part[1..]);
      assert part == [part[0]] + part[1..];
    }
  }

  lemma BoundOfText(b: Bound)
    ensures ParseBound(BoundText(b)) == Some(b)
  {
    hide Decimal, ParseDecimal, IsCanonicalDecimal;
    var digits, text := Decimal(b.version), BoundText(b);
    ParseOfDecimal(b.version);
    DecimalIsCanonical(b.version);
    NotEmpty(digits);
    if b.AtLeast? {
      assert text[..2] == ">=" && text[2..] == digits;
    } else {
      assert text[0] == '<' && text[1..] == digits;
      assert text[..2][0] == '<';
    }
  }

  lemma NotEmpty(s: string)
    requires IsDecimal(s)
    ensures s != ""
  {
  }

  lemma BoundTextShape(b: Bound)
    ensures ',' !in BoundText(b) && BoundText(b) != "" && !IsDigit(BoundText(b)[0]) && BoundText(b)[0] != '*'
    ensures BoundText(b)[0] == '<' <==> b.Below?
  {
    var digits := Decimal(b.version);
    assert ',' !in digits;
    assert b.AtLeast? ==> BoundText(b)[0] == '>';
  }

  /** A version selector is accepted exactly in the spelling of a proper one, which it then means. */
  lemma VersionSelectorRoundTrip(text: string, s: VersionSelector)
    ensures ParseVersionSelector(text) == Some(s) <==> ProperSelector(s) && text == VersionText(s)
  {
    hide ParseBound, BoundText, Decimal, ParseDecimal, Split;
    if ParseVersionSelector(text) == Some(s) {
      match s {
        case Every =>
        case Exactly(n) => DecimalOfParse(text);
        case Range(bounds) => RangeText(text, bounds);
      }
    }
    if ProperSelector(s) && text == VersionText(s) {
      match s {
        case Every =>
        case Exactly(n) =>
          ParseOfDecimal(n);
          DecimalIsCanonical(n);
          assert text[0] != '*';
        case Range(bounds) => RangeParses(bounds);
      }
    }
  }

  lemma RangeText(text: string, bounds: seq<Bound>)
    requires ParseVersionSelector(text) == Some(Range(bounds))
    ensures ProperSelector(Range(bounds)) && text == VersionText(Range(bounds))
  {
    hide ParseBound, BoundText, Split;
    var parts := Split(text, ',');
    JoinOfSplit(text, ',');
    BoundRoundTrip(parts[0], bounds[0]);
    if |parts| == 2 {
      BoundRoundTrip(parts[1], bounds[1]);
      BoundTextShape(bounds[1]);
      assert Join(parts[1..], ',') == parts[1];
    }
  }

  lemma RangeParses(bounds: seq<Bound>)
    requires ProperSelector(Range(bounds))
    ensures ParseVersionSelector(VersionText(Range(bounds))) == Some(Range(bounds))
  {
    hide ParseBound, BoundText;
    var first := BoundText(bounds[0]);
    var parts := if |bounds| == 1 then [first] else [first, BoundText(bounds[1])];
    var text := VersionText(Range(bounds));
    BoundTextShape(bounds[0]);
    BoundRoundTrip(first, bounds[0]);
    if |bounds| == 2 {
      BoundTextShape(bounds[1]);
      BoundRoundTrip(parts[1], bounds[1]);
      assert Join(parts[1..], ',') == parts[1];
    }
    assert text == Join(parts, ',');
    assert text[0] == first[0];
    SplitOfJoin(parts, ',');
    assert bounds == if |bounds| == 1 then [bounds[0]] else [bounds[0], bounds[1]];
  }

  /** `<0` is accepted and addresses no version. */
  lemma BelowZeroSelectsNothing()
    ensures ParseVersionSelector("<0") == Some(Range([Below(0)]))
    ensures forall v :: !VersionMatches(Range([Below(0)]), v)
  {
    hide ParseVersionSelector;
    assert Decimal(0) == "0";
    assert "<0" == ['<'] + "0";
    VersionSelectorRoundTrip("<0", Range([Below(0)]));
    forall v ensures !VersionMatches(Range([Below(0)]), v) { assert !Holds([Below(0)][0], v); }
  }

  // ----- paths -----

  /** A concrete path, or one with whole segments replaced by `*`. */
  predicate ValidPathSelector(declaration: string, path: string) {
    '#' !in path &&
    if '*' !in path then ParsePath(declaration + "@0#" + path).Ok?
    else
      var segments := Split(path, '.');
      forall i :: 0 <= i < |segments| ==> segments[i] == "*" || ParsePath(declaration + "@0#" + segments[i]).Ok?
  }

  predicate PathMatches(selector: string, path: string) {
    var s, p := Split(selector, '.'), Split(path, '.');
    |s| == |p| && forall i :: 0 <= i < |s| ==> s[i] == "*" || s[i] == p[i]
  }

  /** One segment for each of the selector's: any for `*`, otherwise that segment itself. */
  ghost predicate Fills(chosen: seq<string>, selector: string) {
    var segments := Split(selector, '.');
    |chosen| == |segments| &&
    forall i :: 0 <= i < |chosen| ==> '.' !in chosen[i] && (segments[i] == "*" || chosen[i] == segments[i])
  }

  /** A path matches exactly when it is the selector with each `*` replaced by one segment. */
  lemma PathMatchesMeans(selector: string, path: string)
    ensures PathMatches(selector, path) <==> exists chosen :: Fills(chosen, selector) && path == Join(chosen, '.')
  {
    if PathMatches(selector, path) {
      JoinOfSplit(path, '.');
      assert Fills(Split(path, '.'), selector);
    }
    if chosen :| Fills(chosen, selector) && path == Join(chosen, '.') { SplitOfJoin(chosen, '.'); }
  }

  lemma SplitHasNoStar(path: string)
    requires '*' !in path
    ensures forall i :: 0 <= i < |Split(path, '.')| ==> Split(path, '.')[i] != "*"
    decreases |path|
  {
    var dot := IndexOf(path, '.');
    if dot < |path| {
      SplitHasNoStar(path[dot + 1..]);
      assert Split(path, '.') == [path[..dot]] + Split(path[dot + 1..], '.');
      assert '*' !in path[..dot];
    }
  }

  /** A path without a wildcard addresses itself and nothing else. */
  lemma ConcretePathMatchesItself(selector: string, path: string)
    requires '*' !in selector
    ensures PathMatches(selector, path) <==> selector == path
  {
    SplitHasNoStar(selector);
    if PathMatches(selector, path) {
      assert Split(selector, '.') == Split(path, '.');
      JoinOfSplit(selector, '.');
      JoinOfSplit(path, '.');
    }
  }

  // ----- selectors -----

  datatype Section = Models | Fields

  datatype Selector = Selector(
    text: string, declaration: string, version: VersionSelector, path: Option<string>, specificity: nat)

  predicate Matches(s: Selector, declaration: string, version: nat, path: Option<string>) {
    s.declaration == declaration && VersionMatches(s.version, version) &&
    (s.path.None? || (path.Some? && PathMatches(s.path.value, path.value)))
  }

  function VersionSpecificity(v: VersionSelector): nat {
    match v
    case Every => 1
    case Exactly(_) => 3
    case Range(_) => 2
  }

  function ParseSelector(value: string, section: Section): Option<Selector> {
    var hash := IndexOf(value, '#');
    var separated := hash < |value|;
    var path := if separated then value[hash + 1..] else "";
    if separated == section.Models? then None
    else
      match MatchDeclaration(value[..hash])
      case None => None
      case Some(d) =>
        match ParseVersionSelector(d.version)
        case None => None
        case Some(version) =>
          var declaration := DeclarationText(d);
          if path == "" then
            Some(Selector(value, declaration, version, Option.None, VersionSpecificity(version)))
          else if !ValidPathSelector(declaration, path) then None
          else
            var specificity := if '*' in path || !version.Exactly? then 4 else 5;
            Some(Selector(value, declaration, version, Some(path), specificity))
  }

  /** Higher specificities address less: every version, a range, one version; and with a path, some
      of its spellings or versions, or one path of one version. */
  lemma SpecificityMeans(value: string, section: Section)
    requires ParseSelector(value, section).Some?
    ensures var s := ParseSelector(value, section).value;
      && 1 <= s.specificity <= 5 && (s.path.None? <==> s.specificity <= 3)
      && (s.specificity == 1 ==> forall v :: VersionMatches(s.version, v))
      && (s.specificity == 3 || s.specificity == 5 ==>
            s.version.Exactly? && forall v :: VersionMatches(s.version, v) <==> v == s.version.version)
      && (s.specificity == 4 ==> '*' in s.path.value || !s.version.Exactly?)
      && (s.specificity == 5 ==> '*' !in s.path.value)
  {
    hide MatchDeclaration, ParseVersionSelector, ValidPathSelector, IndexOf;
  }

  datatype Subject = Subject(declaration: string, version: nat, path: Option<string>)

  predicate Addresses(s: Selector, q: Subject) { Matches(s, q.declaration, q.version, q.path) }

  /** The facts about a parsed selector that its specificity stands for. */
  ghost predicate Graded(s: Selector) {
    match s.specificity
    case 1 => s.version.Every? && s.path.None?
    case 2 => s.version.Range? && s.path.None?
    case 3 => s.version.Exactly? && s.path.None?
    case 4 => s.path.Some? && ('*' in s.path.value || !s.version.Exactly?)
    case 5 => s.path.Some? && '*' !in s.path.value && s.version.Exactly?
    case _ => false
  }

  lemma ParsedIsGraded(value: string, section: Section)
    requires ParseSelector(value, section).Some?
    ensures Graded(ParseSelector(value, section).value)
  {
    hide MatchDeclaration, ParseVersionSelector, ValidPathSelector, IndexOf;
  }

  /** Of two selectors that share a subject the more specific one addresses no subject the other
      does not, unless it names a path by a wildcard or for several versions and the other names
      versions too. */
  lemma MoreSpecificIsNarrower(s: Selector, t: Selector, shared: Subject, q: Subject)
    requires Graded(s) && Graded(t) && s.specificity < t.specificity && (t.specificity == 4 ==> s.specificity == 1)
    requires Addresses(s, shared) && Addresses(t, shared) && Addresses(t, q)
    ensures Addresses(s, q)
  {
    hide PathMatches, VersionMatches;
    if t.specificity == 5 {
      ConcretePathMatchesItself(t.path.value, shared.path.value);
      ConcretePathMatchesItself(t.path.value, q.path.value);
    }
    ExactVersion(t.version, shared.version, q.version);
    if s.version.Every? { assert VersionMatches(s.version, q.version) by { EveryVersion(s.version, q.version); } }
  }

  /** Of two selectors that share a subject the more specific one addresses only subjects of the
      other exactly when, if it names a path by a wildcard or for several versions, its versions lie
      within the other's. */
  lemma NarrowerExactly(s: Selector, t: Selector, shared: Subject)
    requires Graded(s) && Graded(t) && s.specificity < t.specificity
    requires Addresses(s, shared) && Addresses(t, shared)
    ensures (forall q :: Addresses(t, q) ==> Addresses(s, q)) <==>
      (t.specificity == 4 ==> VersionsWithin(t.version, s.version))
  {
    hide PathMatches, VersionMatches, VersionsWithin;
    if t.specificity != 4 {
      forall q | Addresses(t, q) ensures Addresses(s, q) { MoreSpecificIsNarrower(s, t, shared, q); }
    } else {
      VersionsWithinExactly(t.version, s.version);
      if forall q :: Addresses(t, q) ==> Addresses(s, q) {
        forall v | VersionMatches(t.version, v) ensures VersionMatches(s.version, v) {
          assert Addresses(t, Subject(shared.declaration, v, shared.path));
        }
      }
    }
  }

  lemma ExactVersion(v: VersionSelector, m: nat, n: nat)
    ensures v.Exactly? && VersionMatches(v, m) && VersionMatches(v, n) ==> m == n
  {
  }

  lemma EveryVersion(v: VersionSelector, n: nat)
    requires v.Every?
    ensures VersionMatches(v, n)
  {
  }

  function VersionOne(): Selector { Selector("d.N@1", "d.N", Exactly(1), Option.None, 3) }

  function PathFromOne(): Selector { Selector("d.N@>=1#a", "d.N", Range([AtLeast(1)]), Some("a"), 4) }

  lemma VersionOneParses()
    ensures ParseSelector("d.N@1", Models) == Some(VersionOne())
  {
    hide MatchDeclaration, ParseVersionSelector, ValidPathSelector;
    DeclarationParts("1");
    OneAsVersion();
    assert "d.N@" + "1" == "d.N@1";
    NoSeparator("d.N@1", '#');
    assert DeclarationText(Split3("d", "N", "1")) == "d.N";
  }

  lemma PathFromOneParses()
    ensures ParseSelector("d.N@>=1#a", Fields) == Some(PathFromOne())
  {
    hide MatchDeclaration, ParseVersionSelector, ValidPathSelector, IndexOf;
    DeclarationParts(">=1");
    OneAsVersion();
    PlainPath();
    assert "d.N@" + ">=1" == "d.N@>=1";
    FirstSeparator("d.N@>=1", '#', "a");
    assert "d.N@>=1#a" == "d.N@>=1" + ['#'] + "a";
    assert DeclarationText(Split3("d", "N", ">=1")) == "d.N";
  }

  lemma {:induction false} NoSeparator(s: string, c: char)
    requires c !in s
    ensures IndexOf(s, c) == |s| && s[..|s|] == s
  {
  }

  /** The exception is real: `d.N@>=1#a` outranks `d.N@1` and both address version 1, but only the
      first addresses version 2. */
  lemma PathOutranksVersion()
    ensures ParseSelector("d.N@1", Models) == Some(VersionOne())
    ensures ParseSelector("d.N@>=1#a", Fields) == Some(PathFromOne()) &&
      VersionOne().specificity < PathFromOne().specificity
    ensures var one, two := Subject("d.N", 1, Some("a")), Subject("d.N", 2, Some("a"));
      Addresses(VersionOne(), one) && Addresses(PathFromOne(), one) &&
      !Addresses(VersionOne(), two) && Addresses(PathFromOne(), two)
  {
    hide PathMatches, ParseSelector;
    VersionOneParses();
    PathFromOneParses();
    ConcretePathMatchesItself("a", "a");
  }

  lemma DeclarationParts(version: string)
    requires version != "" && '#' !in version
    ensures MatchDeclaration("d.N@" + version) == Some(Split3("d", "N", version))
  {
    hide MatchDeclaration;
    MatchesInOneWay("d.N@" + version, Split3("d", "N", version));
    assert "d.N@" + version == Unsplit(Split3("d", "N", version));
  }

  lemma OneAsVersion()
    ensures ParseVersionSelector("1") == Some(Exactly(1)) && ParseVersionSelector(">=1") == Some(Range([AtLeast(1)]))
  {
    hide ParseVersionSelector;
    assert Decimal(1) == "1";
    VersionSelectorRoundTrip("1", Exactly(1));
    VersionSelectorRoundTrip(">=1", Range([AtLeast(1)]));
    assert ">=1" == ">=" + "1";
  }

  lemma PlainPathValid()
    ensures var p := SemanticPath(Declaration("d", "N", 0), ["a"]);
      ValidPath(p) && RenderPath(p) == "d.N" + "@0#" + "a"
  {
    assert Decimal(0) == "0";
  }

  lemma PlainPath()
    ensures ValidPathSelector("d.N", "a")
  {
    hide ParsePath, ValidPath, RenderPath;
    PlainPathValid();
    PathRoundTrip(SemanticPath(Declaration("d", "N", 0), ["a"]), "d.N" + "@0#" + "a");
  }

  // ----- requests -----

  /** `_parse_identity`: the declaration and version of an exact identity. */
  function ParseRequest(identity: string): (r: Option<(string, nat)>)
  {
    match MatchDeclaration(identity)
    case None => None
    case Some(d) =>
      if !IsDecimal(d.version) then None
      else
        match DeclarationId(Declaration(d.domain, d.name, ParseDecimal(d.version)))
        case Err(_) => None
        case Ok(canonical) =>
          if canonical != identity then None else Some((DeclarationText(d), ParseDecimal(d.version)))
  }

  lemma IdentifierIsDomain(s: string)
    requires IsIdentifier(s)
    ensures IsDomainName(s)
  {
  }

  /** An exact identity whose domain has no hyphen. */
  ghost predicate Addressable(d: Declaration, identity: string) {
    ParseDeclaration(identity) == Ok(d) && '-' !in d.domain
  }

  lemma RequestFound(d: Declaration, identity: string)
    requires Addressable(d, identity)
    ensures ParseRequest(identity) == Some((d.domain + "." + d.name, d.version))
  {
    hide MatchDeclaration, ParseDeclaration;
    DeclarationRoundTrip(d, identity);
    ParseOfDecimal(d.version);
    var split := Split3(d.domain, d.name, Decimal(d.version));
    assert identity == Unsplit(split);
    assert forall i :: 0 <= i < |d.domain| ==> d.domain[i] in d.domain;
    MatchesInOneWay(identity, split);
  }

  lemma RequestParts(identity: string) returns (d: Declaration)
    requires ParseRequest(identity).Some?
    ensures Addressable(d, identity) && ParseRequest(identity) == Some((d.domain + "." + d.name, d.version))
  {
    hide MatchDeclaration, ParseDeclaration;
    var split := MatchDeclaration(identity).value;
    MatchesInOneWay(identity, split);
    d := Declaration(split.domain, split.name, ParseDecimal(split.version));
    IdentifierIsDomain(split.domain);
    DeclarationRoundTrip(d, identity);
  }

  /** The requests that can be answered. The identity grammar allows hyphens in a domain, so a
      declaration in such a domain can never be overlaid. */
  lemma RequestsExactly(identity: string, declaration: string, version: nat)
    ensures ParseRequest(identity) == Some((declaration, version)) <==>
      exists d :: Addressable(d, identity) && d.version == version && declaration == d.domain + "." + d.name
  {
    hide ParseRequest, Addressable;
    if d :| Addressable(d, identity) && d.version == version && declaration == d.domain + "." + d.name {
      RequestFound(d, identity);
    }
    if ParseRequest(identity) == Some((declaration, version)) {
      var d := RequestParts(identity);
    }
  }

  /** `a-b.N@1` is an identity, but a request for it is refused. */
  lemma HyphenIsRefused()
    ensures ParseDeclaration("a-b.N@1") == Ok(Declaration("a-b", "N", 1)) && ParseRequest("a-b.N@1") == None
  {
    hide ParseDeclaration, ParseRequest;
    var d := Declaration("a-b", "N", 1);
    assert Decimal(1) == "1";
    assert "a-b.N@1" == Render(d);
    DeclarationRoundTrip(d, "a-b.N@1");
    if r: (string, nat) :| ParseRequest("a-b.N@1") == Some(r) {
      RequestsExactly("a-b.N@1", r.0, r.1);
    }
  }

  // ----- the most specific selectors -----

  /** A selector of the highest specificity is the text of the one semantic path it addresses. */
  lemma MostSpecificIsOnePath(value: string, section: Section, declaration: string, version: nat, path: string)
    requires ParseSelector(value, section).Some? && ParseSelector(value, section).value.specificity == 5
    ensures Matches(ParseSelector(value, section).value, declaration, version, Some(path)) <==>
      (IsDeclarationText(declaration) && '#' !in path && path != "" &&
       value == declaration + "@" + Decimal(version) + "#" + path)
  {
    hide MatchDeclaration, ParseVersionSelector, ValidPathSelector, Matches;
    var s := ParseSelector(value, section).value;
    PartsOfMostSpecific(value, section, s);
    var hash := IndexOf(value, '#');
    MatchesMostSpecific(value, section, declaration, version, path);
    assert value == value[..hash] + ['#'] + value[hash + 1..];
    if IsDeclarationText(declaration) && '#' !in path &&
        value == declaration + "@" + Decimal(version) + "#" + path {
      NoHash(declaration, version);
      FirstSeparator(declaration + "@" + Decimal(version), '#', path);
      assert value == (declaration + "@" + Decimal(version)) + ['#'] + path;
      SameExactText(declaration, version, s.declaration, s.version.version);
    }
  }

  /** Two identifiers around a dot. */
  ghost predicate IsDeclarationText(text: string) {
    exists domain, name :: IsIdentifier(domain) && IsIdentifier(name) && text == domain + "." + name
  }

  lemma PartsOfMostSpecific(value: string, section: Section, s: Selector)
    requires ParseSelector(value, section) == Some(s) && s.specificity == 5
    ensures var hash := IndexOf(value, '#');
      hash < |value| && s.path == Some(value[hash + 1..]) && s.path.value != "" && '#' !in s.path.value &&
      '*' !in s.path.value && s.version.Exactly? && IsDeclarationText(s.declaration) &&
      value[..hash] == s.declaration + "@" + Decimal(s.version.version)
  {
    hide *;
    var d := MostSpecificShape(value, section, s);
    var hash := IndexOf(value, '#');
    ExactVersionText(d.version);
    MatchedText(value[..hash], d);
    PathHasNoHash(DeclarationText(d), value[hash + 1..]);
  }

  lemma MostSpecificShape(value: string, section: Section, s: Selector) returns (d: Split3)
    requires ParseSelector(value, section) == Some(s) && s.specificity == 5
    ensures var hash := IndexOf(value, '#');
      hash < |value| && MatchDeclaration(value[..hash]) == Some(d) &&
      ParseVersionSelector(d.version) == Some(s.version) && s.version.Exactly? && s.declaration == DeclarationText(d) &&
      var path := value[hash + 1..];
      s.path == Some(path) && path != "" && '*' !in path && ValidPathSelector(DeclarationText(d), path)
  {
    hide ParseVersionSelector, ValidPathSelector, MatchDeclaration, DeclarationText, IndexOf;
    d := MatchDeclaration(value[..IndexOf(value, '#')]).value;
  }

  lemma PathHasNoHash(declaration: string, path: string)
    requires ValidPathSelector(declaration, path)
    ensures '#' !in path
  {
  }

  lemma MatchedText(text: string, d: Split3)
    requires MatchDeclaration(text) == Some(d)
    ensures IsDeclarationText(DeclarationText(d)) && text == DeclarationText(d) + "@" + d.version
  {
    hide MatchDeclaration, IsIdentifier;
    MatchesInOneWay(text, d);
    assert text == d.domain + "." + d.name + "@" + d.version;
  }

  lemma ExactVersionText(text: string)
    requires ParseVersionSelector(text).Some? && ParseVersionSelector(text).value.Exactly?
    ensures text == Decimal(ParseVersionSelector(text).value.version)
  {
    hide Split;
    assert IsCanonicalDecimal(text);
    DecimalOfParse(text);
  }

  lemma MatchesMostSpecific(value: string, section: Section, declaration: string, version: nat, path: string)
    requires ParseSelector(value, section).Some? && ParseSelector(value, section).value.specificity == 5
    ensures var s := ParseSelector(value, section).value;
      s.path.Some? && s.version.Exactly? &&
      (Matches(s, declaration, version, Some(path)) <==>
        s.declaration == declaration && s.version.version == version && s.path.value == path)
  {
    hide ParseSelector, PathMatches;
    var s := ParseSelector(value, section).value;
    PartsOfMostSpecific(value, section, s);
    ConcretePathMatchesItself(s.path.value, path);
  }

  lemma NoHash(declaration: string, version: nat)
    requires IsDeclarationText(declaration)
    ensures '#' !in declaration + "@" + Decimal(version)
  {
    var domain, name :| IsIdentifier(domain) && IsIdentifier(name) && declaration == domain + "." + name;
    IdentifierIsDomain(domain);
    RenderHasNoHash(Declaration(domain, name, version));
    assert Render(Declaration(domain, name, version)) == declaration + "@" + Decimal(version);
  }

  /** Declaration text and version are recovered from their joint text. */
  lemma SameExactText(a: string, m: nat, b: string, n: nat)
    requires IsDeclarationText(a) && IsDeclarationText(b)
    requires a + "@" + Decimal(m) == b + "@" + Decimal(n)
    ensures a == b && m == n
  {
    var text := a + "@" + Decimal(m);
    assert text == a + ['@'] + Decimal(m) && text == b + ['@'] + Decimal(n);
    assert '@' !in Decimal(m) && '@' !in Decimal(n);
    LastSeparator(a, '@', Decimal(m));
    LastSeparator(b, '@', Decimal(n));
    ParseOfDecimal(m);
    ParseOfDecimal(n);
  }
}
