/** Canonical declaration identities and semantic paths (cli/src/modelable/identity.py). */
module Identity {
  import opened Text

  predicate IsLetter(c: char) { 'a' <= c <= 'z' || 'A' <= c <= 'Z' || c == '_' }

  predicate IsIdentifier(s: string) {
    s != "" && IsLetter(s[0]) && forall i :: 0 <= i < |s| ==> IsLetter(s[i]) || IsDigit(s[i])
  }

  predicate IsDomainName(s: string) {
    s != "" && IsLetter(s[0]) && forall i :: 0 <= i < |s| ==> IsLetter(s[i]) || IsDigit(s[i]) || s[i] == '-'
  }

  predicate EndsWith(s: string, suffix: string) {
    |suffix| <= |s| && s[|s| - |suffix|..] == suffix
  }

  /** An identifier followed by a container marker. */
  predicate IsMarked(s: string, marker: string) {
    EndsWith(s, marker) && IsIdentifier(s[..|s| - |marker|])
  }

  predicate IsPathSegment(s: string) {
    || s == "[]" || s == "{}" || s == "{key}" || IsIdentifier(s)
    || IsMarked(s, "[]") || IsMarked(s, "{}") || IsMarked(s, "{key}")
  }

  datatype Declaration = Declaration(domain: string, name: string, version: nat)

  datatype SemanticPath = SemanticPath(declaration: Declaration, segments: seq<string>)

  /** The typed reference: a declaration alone when there are no segments. */
  type Reference = SemanticPath

  datatype IdentityError = Invalid | NonCanonical

  predicate ValidDeclaration(d: Declaration) { IsDomainName(d.domain) && IsIdentifier(d.name) }

  predicate ValidPath(p: SemanticPath) {
    ValidDeclaration(p.declaration) && p.segments != [] &&
    forall i :: 0 <= i < |p.segments| ==> IsPathSegment(p.segments[i])
  }

  predicate ValidReference(r: Reference) { ValidDeclaration(r.declaration) && (r.segments == [] || ValidPath(r)) }

  /** The text of an exact identity, written only for valid parts. */
  function Render(d: Declaration): string {
    d.domain + "." + d.name + "@" + Decimal(d.version)
  }

  function DeclarationId(d: Declaration): Result<string, IdentityError> {
    if ValidDeclaration(d) then Ok(Render(d)) else Err(Invalid)
  }

  function RenderPath(p: SemanticPath): string {
    Render(p.declaration) + "#" + Join(p.segments, '.')
  }

  function PathText(p: SemanticPath): Result<string, IdentityError> {
    if p.segments == [] || exists i :: 0 <= i < |p.segments| && !IsPathSegment(p.segments[i]) then Err(Invalid)
    else Ok(RenderPath(p))
  }

  function RenderReference(r: Reference): string {
    if r.segments == [] then Render(r.declaration) else RenderPath(r)
  }

  /** Splits `domain.name@version` without judging the parts. */
  function SplitDeclaration(value: string): Result<Declaration, IdentityError> {
    var at := LastIndexOf(value, '@');
    if at < 0 then Err(Invalid)
    else
      var domainName, versionText := value[..at], value[at + 1..];
      var dot := IndexOf(domainName, '.');
      if dot == |domainName| || !IsDecimal(versionText) then Err(Invalid)
      else Ok(Declaration(domainName[..dot], domainName[dot + 1..], ParseDecimal(versionText)))
  }

  function ParseDeclaration(value: string): Result<Declaration, IdentityError> {
    match SplitDeclaration(value)
    case Err(e) => Err(e)
    case Ok(d) =>
      match DeclarationId(d)
      case Err(e) => Err(e)
      case Ok(canonical) => if canonical == value then Ok(d) else Err(NonCanonical)
  }

  function ParsePath(value: string): Result<SemanticPath, IdentityError> {
    var hash := IndexOf(value, '#');
    if hash == |value| || hash == 0 || hash + 1 == |value| then Err(Invalid)
    else
      match SplitDeclaration(value[..hash])
      case Err(e) => Err(e)
      case Ok(d) =>
        if !ValidDeclaration(d) then Err(Invalid)
        else
          var p := SemanticPath(d, Split(value[hash + 1..], '.'));
          match PathText(p)
          case Err(e) => Err(e)
          case Ok(text) => if text == value then Ok(p) else Err(NonCanonical)
  }

  function ParseReference(value: string): Result<Reference, IdentityError> {
    if '#' in value then
      match ParsePath(value)
      case Err(e) => Err(e)
      case Ok(p) => Ok(p)
    else
      match ParseDeclaration(value)
      case Err(e) => Err(e)
      case Ok(d) => Ok(SemanticPath(d, []))
  }

  // ----- what the printers and parsers promise together -----

  lemma SplitOfRender(d: Declaration)
    requires ValidDeclaration(d)
    ensures SplitDeclaration(Render(d)) == Ok(d)
  {
    var domainName := d.domain + "." + d.name;
    var digits := Decimal(d.version);
    LastSeparator(domainName, '@', digits);
    FirstSeparator(d.domain, '.', d.name);
    ParseOfDecimal(d.version);
    assert Render(d) == domainName + ['@'] + digits;
    assert domainName == d.domain + ['.'] + d.name;
  }

  lemma RenderHasNoHash(d: Declaration)
    requires ValidDeclaration(d)
    ensures '#' !in Render(d)
  {
    var s := Render(d);
    forall i | 0 <= i < |s| ensures s[i] != '#' {
      if i < |d.domain| { assert s[i] == d.domain[i]; }
      else if |d.domain| < i <= |d.domain| + |d.name| { assert s[i] == d.name[i - |d.domain| - 1]; }
      else if i > |d.domain| + |d.name| + 1 { assert s[i] == Decimal(d.version)[i - |d.domain| - |d.name| - 2]; }
    }
  }

  /** A declaration identity parses back to its parts, and only its own text does. */
  lemma DeclarationRoundTrip(d: Declaration, value: string)
    ensures ParseDeclaration(value) == Ok(d) <==> ValidDeclaration(d) && value == Render(d)
  {
    if ValidDeclaration(d) { SplitOfRender(d); }
  }

  lemma MarkedHasNoSeparator(s: string, marker: string, c: char)
    requires IsMarked(s, marker) && c !in marker && !IsLetter(c) && !IsDigit(c)
    ensures c !in s && s != ""
  {
    assert s == s[..|s| - |marker|] + marker;
    assert c !in s[..|s| - |marker|];
  }

  lemma SegmentHasNoSeparator(s: string, c: char)
    requires IsPathSegment(s) && (c == '.' || c == '#')
    ensures c !in s && s != ""
  {
    if IsMarked(s, "[]") { MarkedHasNoSeparator(s, "[]", c); }
    else if IsMarked(s, "{}") { MarkedHasNoSeparator(s, "{}", c); }
    else if IsMarked(s, "{key}") { MarkedHasNoSeparator(s, "{key}", c); }
  }

  lemma JoinedSegmentsNonEmpty(segments: seq<string>)
    requires segments != [] && IsPathSegment(segments[0])
    ensures Join(segments, '.') != ""
  {
    SegmentHasNoSeparator(segments[0], '.');
  }

  lemma ParseOfRenderedPath(p: SemanticPath)
    requires ValidPath(p)
    ensures ParsePath(RenderPath(p)) == Ok(p)
  {
    var declaration, path := Render(p.declaration), Join(p.segments, '.');
    SplitOfRender(p.declaration);
    RenderHasNoHash(p.declaration);
    assert RenderPath(p) == declaration + ['#'] + path;
    FirstSeparator(declaration, '#', path);
    JoinedSegmentsNonEmpty(p.segments);
    forall i | 0 <= i < |p.segments| ensures '.' !in p.segments[i] {
      SegmentHasNoSeparator(p.segments[i], '.');
    }
    SplitOfJoin(p.segments, '.');
  }

  /** A semantic path parses back to its declaration and segments, and only its own text does. */
  lemma PathRoundTrip(p: SemanticPath, value: string)
    ensures ParsePath(value) == Ok(p) <==> ValidPath(p) && value == RenderPath(p)
  {
    if ValidPath(p) { ParseOfRenderedPath(p); }
  }

  lemma RenderedPathHasHash(p: SemanticPath)
    ensures '#' in RenderPath(p)
  {
    assert RenderPath(p)[|Render(p.declaration)|] == '#';
  }

  lemma ParsedHasSegments(value: string)
    requires ParsePath(value).Ok?
    ensures ParsePath(value).value.segments != []
  {
  }

  /** Declaration references and path references share one text syntax without confusion. */
  lemma ReferenceRoundTrip(r: Reference, value: string)
    ensures ParseReference(value) == Ok(r) <==> ValidReference(r) && value == RenderReference(r)
  {
    if '#' in value {
      if ParsePath(value).Ok? { ParsedHasSegments(value); }
      PathRoundTrip(r, value);
      if ValidReference(r) { RenderHasNoHash(r.declaration); }
    } else {
      DeclarationRoundTrip(r.declaration, value);
      RenderedPathHasHash(r);
    }
  }

  /** No two references share a spelling. */
  lemma RenderingInjective(a: Reference, b: Reference)
    requires ValidReference(a) && ValidReference(b)
    requires RenderReference(a) == RenderReference(b)
    ensures a == b
  {
    ReferenceRoundTrip(a, RenderReference(a));
    ReferenceRoundTrip(b, RenderReference(b));
  }

  // ----- the grammar -----

  /** Letters are those of ASCII and the underscore, digits those of ASCII, by code point. */
  lemma CharactersAre(c: char)
    ensures var n := c as int;
      (IsLetter(c) <==> 65 <= n <= 90 || 97 <= n <= 122 || n == 95) && (IsDigit(c) <==> 48 <= n <= 57)
  {
  }

  /** An identifier is a letter followed by letters and digits; a domain may hold hyphens too. */
  lemma NamesAre(s: string)
    ensures IsIdentifier(s) <==>
      exists c, rest :: s == [c] + rest && IsLetter(c) && forall x :: x in rest ==> IsLetter(x) || IsDigit(x)
    ensures IsDomainName(s) <==>
      exists c, rest ::
        s == [c] + rest && IsLetter(c) && forall x :: x in rest ==> IsLetter(x) || IsDigit(x) || x == '-'
  {
    hide IsLetter, IsDigit;
    if s != "" {
      assert s == [s[0]] + s[1..];
      assert forall x :: x in s[1..] ==> x in s;
      forall i | 0 < i < |s| ensures s[i] in s[1..] { assert s[1..][i - 1] == s[i]; }
    }
  }

  /** A path segment is a container marker, or an identifier with at most one of them. */
  lemma SegmentsAre(s: string)
    ensures IsPathSegment(s) <==>
      s in {"[]", "{}", "{key}"} || exists n :: IsIdentifier(n) && s in {n, n + "[]", n + "{}", n + "{key}"}
  {
    hide IsIdentifier;
    forall marker | marker in {"[]", "{}", "{key}"}
      ensures IsMarked(s, marker) <==> exists n :: IsIdentifier(n) && s == n + marker
    {
      MarkedIs(s, marker);
    }
  }

  lemma MarkedIs(s: string, marker: string)
    ensures IsMarked(s, marker) <==> exists n :: IsIdentifier(n) && s == n + marker
  {
    hide IsIdentifier;
    if IsMarked(s, marker) { assert s == s[..|s| - |marker|] + marker; }
    if n :| IsIdentifier(n) && s == n + marker { assert s[..|s| - |marker|] == n && s[|s| - |marker|..] == marker; }
  }
}
