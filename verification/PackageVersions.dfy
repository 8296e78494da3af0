/** Package versions and dependency constraints (cli/src/modelable/package_manifest.py). */
module PackageVersions {
  import opened Ordering
  import Text

  datatype Identifier = Number(value: nat) | Word(text: string)

  datatype Core = Core(major: nat, minor: nat, patch: nat)

  /** A package version without build metadata. */
  datatype Version = Version(core: Core, prerelease: seq<Identifier>)

  predicate CoreLess(a: Core, b: Core) {
    a.major < b.major ||
    (a.major == b.major && (a.minor < b.minor || (a.minor == b.minor && a.patch < b.patch)))
  }

  predicate CoreLeq(a: Core, b: Core) { a == b || CoreLess(a, b) }

  predicate IdentifierLeq(a: Identifier, b: Identifier) {
    match (a, b)
    case (Number(x), Number(y)) => x <= y
    case (Number(_), Word(_)) => true
    case (Word(_), Number(_)) => false
    case (Word(x), Word(y)) => StringLeq(x, y)
  }

  /** The order of `_version_key`: a pre-release sorts above the release with its core. */
  predicate VersionLeq(a: Version, b: Version) {
    if a.core == b.core then LexLeq(IdentifierLeq, a.prerelease, b.prerelease) else CoreLess(a.core, b.core)
  }

  lemma VersionOrder()
    ensures TotalOrder(VersionLeq)
  {
    StringOrder();
    assert TotalOrder(IdentifierLeq);
    forall a, b ensures (VersionLeq(a, b) || VersionLeq(b, a)) && (VersionLeq(a, b) && VersionLeq(b, a) ==> a == b) {
      LexTotal(IdentifierLeq, a.prerelease, b.prerelease);
    }
    forall a, b, c | VersionLeq(a, b) && VersionLeq(b, c) ensures VersionLeq(a, c) {
      if a.core == b.core && b.core == c.core {
        LexTransitive(IdentifierLeq, a.prerelease, b.prerelease, c.prerelease);
      }
    }
  }

  /** Precedence, section 11 of Semantic Versioning 2.0.0: a release is the greatest of its core. */
  predicate SemVerLeq(a: Version, b: Version) {
    if a.core == b.core then
      b.prerelease == [] || (a.prerelease != [] && LexLeq(IdentifierLeq, a.prerelease, b.prerelease))
    else CoreLess(a.core, b.core)
  }

  predicate SameKind(a: Version, b: Version) { a.prerelease == [] <==> b.prerelease == [] }

  /** The key orders two versions by precedence exactly when they are not a release and a
      pre-release of one core, which it orders the other way round. */
  lemma KeyOrdersByPrecedenceExactly(a: Version, b: Version)
    ensures (VersionLeq(a, b) <==> SemVerLeq(a, b)) <==> a.core != b.core || SameKind(a, b)
    ensures a.core == b.core && a.prerelease == [] && b.prerelease != [] ==>
      VersionLeq(a, b) && !VersionLeq(b, a) && SemVerLeq(b, a) && !SemVerLeq(a, b)
  {
  }

  /** `1.0.0-alpha` sorts above `1.0.0`, and `>=1.0.0` lets it through. */
  lemma PrereleaseSortsAboveRelease()
    ensures var release, alpha := Version(Core(1, 0, 0), []), Version(Core(1, 0, 0), [Word("alpha")]);
      && VersionLeq(release, alpha) && !SemVerLeq(release, alpha) && SemVerLeq(alpha, release)
      && Satisfies(alpha, AllOf([Part(GreaterOrEqual, [1, 0, 0])]))
  {
  }

  /** Pre-release identifiers: numbers by value, before all words, and words by their text. */
  lemma IdentifiersAreOrdered(m: nat, n: nat, v: string, w: string)
    ensures IdentifierLeq(Number(m), Number(n)) <==> m <= n
    ensures IdentifierLeq(Number(m), Word(w)) && !IdentifierLeq(Word(w), Number(m))
    ensures IdentifierLeq(Word(v), Word(w)) <==> v <= w || exists i: nat :: FirstLess(CharLeq, v, w, i)
  {
    LexMeans(CharLeq, v, w);
  }

  lemma Continues(first: Identifier, a: seq<Identifier>, b: seq<Identifier>)
    ensures LexLeq(IdentifierLeq, [first] + a, [first] + b) <==> LexLeq(IdentifierLeq, a, b)
  {
    assert ([first] + a)[1..] == a && ([first] + b)[1..] == b;
  }

  function OneZero(prerelease: seq<Identifier>): Version { Version(Core(1, 0, 0), prerelease) }

  /** The example of section 11 of Semantic Versioning 2.0.0: 1.0.0-alpha, -alpha.1, -alpha.beta, -beta,
      -beta.2, -beta.11, -rc.1, 1.0.0, each before the next. */
  lemma PrecedenceExample()
    ensures var alpha, beta := Word("alpha"), Word("beta");
      && SemVerLeq(OneZero([alpha]), OneZero([alpha, Number(1)]))
      && SemVerLeq(OneZero([alpha, Number(1)]), OneZero([alpha, beta]))
      && SemVerLeq(OneZero([alpha, beta]), OneZero([beta]))
      && SemVerLeq(OneZero([beta]), OneZero([beta, Number(2)]))
      && SemVerLeq(OneZero([beta, Number(2)]), OneZero([beta, Number(11)]))
      && SemVerLeq(OneZero([beta, Number(11)]), OneZero([Word("rc"), Number(1)]))
      && SemVerLeq(OneZero([Word("rc"), Number(1)]), OneZero([]))
  {
    var alpha, beta, rc := Word("alpha"), Word("beta"), Word("rc");
    assert "alpha"[0] == 'a' && "beta"[0] == 'b' && "rc"[0] == 'r';
    assert StringLeq("alpha", "beta") && StringLeq("beta", "rc");
    hide StringLeq;
    Continues(alpha, [], [Number(1)]);
    Continues(alpha, [Number(1)], [beta]);
    Continues(beta, [], [Number(2)]);
    Continues(beta, [Number(2)], [Number(11)]);
    assert [alpha] + [] == [alpha] && [beta] + [] == [beta];
  }

  function IdentifierText(i: Identifier): string {
    match i
    case Number(n) => Text.Decimal(n)
    case Word(w) => w
  }

  function CoreText(c: Core): string {
    Text.Decimal(c.major) + "." + Text.Decimal(c.minor) + "." + Text.Decimal(c.patch)
  }

  function VersionText(v: Version): string {
    if v.prerelease == [] then CoreText(v.core)
    else
      CoreText(v.core) + "-" +
      Text.Join(seq(|v.prerelease|, i requires 0 <= i < |v.prerelease| => IdentifierText(v.prerelease[i])), '.')
  }

  /** A version is written with its numbers and identifiers between dots. */
  lemma VersionTextExample()
    ensures VersionText(Version(Core(1, 2, 3), [])) == "1.2.3"
    ensures VersionText(Version(Core(1, 2, 3), [Word("rc"), Number(4)])) == "1.2.3-rc.4"
  {
    assert Text.Decimal(1) == "1" && Text.Decimal(2) == "2" && Text.Decimal(3) == "3" && Text.Decimal(4) == "4";
    var v := Version(Core(1, 2, 3), [Word("rc"), Number(4)]);
    var texts := seq(|v.prerelease|, i requires 0 <= i < |v.prerelease| => IdentifierText(v.prerelease[i]));
    assert texts == ["rc", "4"] && ["rc", "4"][1..] == ["4"];
    assert Text.Join(["rc", "4"], '.') == "rc.4";
  }

  datatype Operator = Exactly | Caret | Tilde | GreaterOrEqual | Greater | Less | LessOrEqual

  /** One comma-separated part with its one to three numbers, or text that is no part at all. */
  datatype Part = Part(op: Operator, numbers: seq<nat>) | Malformed

  datatype Constraint = Anything | AllOf(parts: seq<Part>)

  predicate WellFormed(p: Part) { p.Part? && 1 <= |p.numbers| <= 3 }

  function Padded(numbers: seq<nat>): Core
    requires 1 <= |numbers| <= 3
  {
    Core(numbers[0], if |numbers| > 1 then numbers[1] else 0, if |numbers| > 2 then numbers[2] else 0)
  }

  predicate PartAdmits(p: Part, core: Core) {
    WellFormed(p) &&
    var bound := Padded(p.numbers);
    match p.op
    case Exactly =>
      if |p.numbers| == 1 then core.major == bound.major
      else if |p.numbers| == 2 then core.major == bound.major && core.minor == bound.minor
      else core == bound
    case GreaterOrEqual => CoreLeq(bound, core)
    case Greater => CoreLess(bound, core)
    case Less => CoreLess(core, bound)
    case LessOrEqual => CoreLeq(core, bound)
    case Caret => CoreLeq(bound, core) && CoreLess(core, Core(bound.major + 1, 0, 0))
    case Tilde => CoreLeq(bound, core) && CoreLess(core, Core(bound.major, bound.minor + 1, 0))
  }

  predicate Admits(c: Constraint, core: Core) {
    c.Anything? || forall i :: 0 <= i < |c.parts| ==> PartAdmits(c.parts[i], core)
  }

  predicate Satisfies(v: Version, c: Constraint) { Admits(c, v.core) }

  function Component(core: Core, i: nat): nat {
    if i == 0 then core.major else if i == 1 then core.minor else core.patch
  }

  /** `*` lets every version through, pre-releases included. */
  lemma AnythingMatchesAll(v: Version)
    ensures Satisfies(v, Anything)
  {
  }

  /** A list lets through what every part does; a part that is no constraint lets nothing through. */
  lemma AllOfMeans(v: Version, parts: seq<Part>)
    ensures Satisfies(v, AllOf(parts)) <==> forall p :: p in parts ==> WellFormed(p) && PartAdmits(p, v.core)
  {
  }

  /** Cores are compared by their first differing component, major before minor before patch. */
  lemma CoreOrderMeans(a: Core, b: Core)
    ensures CoreLess(a, b) <==>
      exists i: nat :: i < 3 && Component(a, i) < Component(b, i) &&
        forall j: nat :: j < i ==> Component(a, j) == Component(b, j)
    ensures CoreLeq(a, b) <==> !CoreLess(b, a)
  {
    assert Component(a, 0) == a.major && Component(b, 0) == b.major;
    assert Component(a, 1) == a.minor && Component(b, 1) == b.minor;
    assert Component(a, 2) == a.patch && Component(b, 2) == b.patch;
  }

  /** What the comparisons mean, on the numbers spelled padded with zeros. */
  lemma ComparisonsMean(p: Part, core: Core)
    requires WellFormed(p)
    ensures forall i: nat :: i < 3 ==> Component(Padded(p.numbers), i) == if i < |p.numbers| then p.numbers[i] else 0
    ensures p.op == Less ==> (PartAdmits(p, core) <==> CoreLess(core, Padded(p.numbers)))
    ensures p.op == GreaterOrEqual ==> (PartAdmits(p, core) <==> !CoreLess(core, Padded(p.numbers)))
    ensures p.op == Greater ==> (PartAdmits(p, core) <==> CoreLess(Padded(p.numbers), core))
    ensures p.op == LessOrEqual ==> (PartAdmits(p, core) <==> !CoreLess(Padded(p.numbers), core))
  {
  }

  /** What the shorthand operators mean: a caret keeps the major number, a tilde major and minor, and
      an exact version fixes the components it spells. */
  lemma OperatorsMean(p: Part, core: Core)
    requires WellFormed(p)
    ensures p.op == Caret ==>
      (PartAdmits(p, core) <==> core.major == p.numbers[0] && CoreLeq(Padded(p.numbers), core))
    ensures p.op == Tilde ==>
      (PartAdmits(p, core) <==>
         core.major == p.numbers[0] && core.minor == Padded(p.numbers).minor && core.patch >= Padded(p.numbers).patch)
    ensures p.op == Exactly ==>
      (PartAdmits(p, core) <==> forall i :: 0 <= i < |p.numbers| ==> Component(core, i) == p.numbers[i])
  {
    if p.op == Exactly && forall i :: 0 <= i < |p.numbers| ==> Component(core, i) == p.numbers[i] {
      assert Component(core, 0) == p.numbers[0];
      assert |p.numbers| > 1 ==> Component(core, 1) == p.numbers[1];
      assert |p.numbers| > 2 ==> Component(core, 2) == p.numbers[2];
    }
  }

  /** The cores a constraint admits have no gaps. */
  lemma AdmittedCoresAreConvex(c: Constraint, low: Version, mid: Version, high: Version)
    requires Satisfies(low, c) && Satisfies(high, c)
    requires CoreLeq(low.core, mid.core) && CoreLeq(mid.core, high.core)
    ensures Satisfies(mid, c)
  {
    if c.AllOf? {
      forall i | 0 <= i < |c.parts| ensures PartAdmits(c.parts[i], mid.core) {
        assert PartAdmits(c.parts[i], low.core) && PartAdmits(c.parts[i], high.core);
      }
    }
  }

  // ----- validation -----

  datatype Bound = Bound(core: Core, inclusive: bool)

  datatype Verdict = Accepted | MalformedConstraint | Contradictory

  predicate HasLower(p: Part) { WellFormed(p) && p.op in {GreaterOrEqual, Greater, Exactly} }

  predicate HasUpper(p: Part) { WellFormed(p) && p.op in {Less, LessOrEqual, Exactly} }

  function LowerOf(p: Part): Bound
    requires WellFormed(p)
  {
    Bound(Padded(p.numbers), p.op != Greater)
  }

  function UpperOf(p: Part): Bound
    requires WellFormed(p)
  {
    Bound(Padded(p.numbers), p.op != Less)
  }

  predicate TighterLower(a: Bound, b: Bound) {
    CoreLess(b.core, a.core) || (a.core == b.core && !a.inclusive && b.inclusive)
  }

  predicate TighterUpper(a: Bound, b: Bound) {
    CoreLess(a.core, b.core) || (a.core == b.core && !a.inclusive && b.inclusive)
  }

  predicate Clash(lower: Bound, upper: Bound) {
    CoreLess(upper.core, lower.core) || (lower.core == upper.core && !(lower.inclusive && upper.inclusive))
  }

  /** Some lower bound lies above some upper bound. */
  ghost predicate BoundsClash(parts: seq<Part>) {
    exists i, j :: 0 <= i < |parts| && 0 <= j < |parts| && HasLower(parts[i]) && HasUpper(parts[j]) &&
      Clash(LowerOf(parts[i]), UpperOf(parts[j]))
  }

  ghost predicate AllWellFormed(parts: seq<Part>) {
    forall i :: 0 <= i < |parts| ==> WellFormed(parts[i])
  }

  /** `best` is the tightest lower bound among the first `n` parts. */
  ghost predicate TightestLower(parts: seq<Part>, n: nat, best: seq<Bound>)
    requires n <= |parts|
  {
    && |best| <= 1
    && (best == [] ==> forall i :: 0 <= i < n ==> !HasLower(parts[i]))
    && (best != [] ==> exists i :: 0 <= i < n && HasLower(parts[i]) && best[0] == LowerOf(parts[i]))
    && (best != [] ==> forall i :: 0 <= i < n && HasLower(parts[i]) ==> !TighterLower(LowerOf(parts[i]), best[0]))
  }

  ghost predicate TightestUpper(parts: seq<Part>, n: nat, best: seq<Bound>)
    requires n <= |parts|
  {
    && |best| <= 1
    && (best == [] ==> forall i :: 0 <= i < n ==> !HasUpper(parts[i]))
    && (best != [] ==> exists i :: 0 <= i < n && HasUpper(parts[i]) && best[0] == UpperOf(parts[i]))
    && (best != [] ==> forall i :: 0 <= i < n && HasUpper(parts[i]) ==> !TighterUpper(UpperOf(parts[i]), best[0]))
  }

  /** Rejects exactly the malformed constraints and those with a pair of clashing bounds; caret and
      tilde parts are not looked at, and a short exact version counts as padded with zeros. */
  method ValidateConstraint(c: Constraint) returns (verdict: Verdict)
    ensures verdict == MalformedConstraint <==> c.AllOf? && !AllWellFormed(c.parts)
    ensures verdict == Contradictory <==> c.AllOf? && AllWellFormed(c.parts) && BoundsClash(c.parts)
  {
    hide Padded;
    if c.Anything? {
      return Accepted;
    }
    var lower: seq<Bound> := [];
    var upper: seq<Bound> := [];
    for i := 0 to |c.parts|
      invariant forall k :: 0 <= k < i ==> WellFormed(c.parts[k])
      invariant TightestLower(c.parts, i, lower) && TightestUpper(c.parts, i, upper)
    {
      var part := c.parts[i];
      if !WellFormed(part) {
        return MalformedConstraint;
      }
      if part.op in {GreaterOrEqual, Greater, Exactly} {
        var candidate := LowerOf(part);
        if lower == [] || TighterLower(candidate, lower[0]) {
          lower := [candidate];
        }
      }
      if part.op in {Less, LessOrEqual, Exactly} {
        var candidate := UpperOf(part);
        if upper == [] || TighterUpper(candidate, upper[0]) {
          upper := [candidate];
        }
      }
    }
    if lower != [] && upper != [] && Clash(lower[0], upper[0]) {
      return Contradictory;
    }
    verdict := Accepted;
  }

  function NextCore(c: Core): Core { Core(c.major, c.minor, c.patch + 1) }

  // ----- what a constraint can match -----

  /** The least core a part lets through. */
  function TrueLow(p: Part): Core
    requires WellFormed(p)
  {
    match p.op
    case Greater => NextCore(Padded(p.numbers))
    case Less => Core(0, 0, 0)
    case LessOrEqual => Core(0, 0, 0)
    case _ => Padded(p.numbers)
  }

  predicate Bounded(p: Part) { WellFormed(p) && p.op != GreaterOrEqual && p.op != Greater }

  /** The least core above everything a bounded part lets through. */
  function TrueHigh(p: Part): Core
    requires Bounded(p)
  {
    var bound := Padded(p.numbers);
    match p.op
    case Less => bound
    case Caret => Core(bound.major + 1, 0, 0)
    case Tilde => Core(bound.major, bound.minor + 1, 0)
    case Exactly =>
      if |p.numbers| == 1 then Core(bound.major + 1, 0, 0)
      else if |p.numbers| == 2 then Core(bound.major, bound.minor + 1, 0)
      else NextCore(bound)
    case _ => NextCore(bound)
  }

  /** A part lets through exactly the half-open interval between the two. */
  lemma PartIsItsInterval(p: Part, c: Core)
    requires WellFormed(p)
    ensures PartAdmits(p, c) <==> CoreLeq(TrueLow(p), c) && (Bounded(p) ==> CoreLess(c, TrueHigh(p)))
  {
  }

  /** The interval of one part ends where that of another begins, or before. */
  predicate Disjoint(parts: seq<Part>)
    requires forall i :: 0 <= i < |parts| ==> WellFormed(parts[i])
  {
    exists i, j :: 0 <= i < |parts| && 0 <= j < |parts| && Bounded(parts[j]) &&
      CoreLeq(TrueHigh(parts[j]), TrueLow(parts[i]))
  }

  /** The least core that every part's lower end lets through. */
  function LeastCore(parts: seq<Part>): (least: Core)
    requires forall i :: 0 <= i < |parts| ==> WellFormed(parts[i])
    ensures forall i :: 0 <= i < |parts| ==> CoreLeq(TrueLow(parts[i]), least)
    ensures parts != [] ==> exists i :: 0 <= i < |parts| && least == TrueLow(parts[i])
  {
    if parts == [] then Core(0, 0, 0)
    else
      var n := |parts| - 1;
      var rest := LeastCore(parts[..n]);
      assert forall i :: 0 <= i < n ==> parts[..n][i] == parts[i];
      if n == 0 || CoreLess(rest, TrueLow(parts[n])) then TrueLow(parts[n]) else rest
  }

  /** Some version matches a well-formed constraint exactly when no part's interval ends before
      another's begins: intervals that meet in pairs have a common core. */
  lemma SatisfiableExactly(parts: seq<Part>)
    requires AllWellFormed(parts)
    ensures (exists v :: Satisfies(v, AllOf(parts))) <==> !Disjoint(parts)
  {
    hide PartAdmits, TrueLow, TrueHigh, LeastCore;
    if v :| Satisfies(v, AllOf(parts)) {
      forall i, j | 0 <= i < |parts| && 0 <= j < |parts| && Bounded(parts[j])
        ensures !CoreLeq(TrueHigh(parts[j]), TrueLow(parts[i]))
      {
        PartIsItsInterval(parts[i], v.core);
        PartIsItsInterval(parts[j], v.core);
      }
    }
    if !Disjoint(parts) {
      var v := Version(LeastCore(parts), []);
      forall j | 0 <= j < |parts| ensures PartAdmits(parts[j], v.core) { PartIsItsInterval(parts[j], v.core); }
      assert Satisfies(v, AllOf(parts));
    }
  }

  /** A constraint rejected as contradictory is matched by nothing exactly when it is disjoint. */
  lemma RejectionIsRightExactly(parts: seq<Part>)
    requires AllWellFormed(parts) && BoundsClash(parts)
    ensures (forall v :: !Satisfies(v, AllOf(parts))) <==> Disjoint(parts)
  {
    hide BoundsClash, Satisfies, Disjoint;
    SatisfiableExactly(parts);
  }

  /** An accepted constraint is matched by something exactly when it is not. */
  lemma AcceptanceIsRightExactly(parts: seq<Part>)
    requires AllWellFormed(parts) && !BoundsClash(parts)
    ensures (exists v :: Satisfies(v, AllOf(parts))) <==> !Disjoint(parts)
  {
    hide BoundsClash, Satisfies, Disjoint;
    SatisfiableExactly(parts);
  }

  /** With a short exact version the rejection is wrong: `1,>=1.5.0` is refused, yet 1.6.0 matches. */
  lemma ShortExactVersionIsRejectedWrongly()
    ensures var parts := [Part(Exactly, [1]), Part(GreaterOrEqual, [1, 5, 0])];
      AllWellFormed(parts) && BoundsClash(parts) && !Disjoint(parts) &&
      Satisfies(Version(Core(1, 6, 0), []), AllOf(parts))
  {
    var parts := [Part(Exactly, [1]), Part(GreaterOrEqual, [1, 5, 0])];
    assert Clash(LowerOf(parts[1]), UpperOf(parts[0]));
    assert Satisfies(Version(Core(1, 6, 0), []), AllOf(parts));
    SatisfiableExactly(parts);
  }

  /** Carets are not looked at: `^1.0.0,>=2.0.0` is accepted, yet nothing matches. */
  lemma CaretIsAcceptedWrongly(v: Version)
    ensures var parts := [Part(Caret, [1, 0, 0]), Part(GreaterOrEqual, [2, 0, 0])];
      AllWellFormed(parts) && !BoundsClash(parts) && Disjoint(parts) && !Satisfies(v, AllOf(parts))
  {
    var parts := [Part(Caret, [1, 0, 0]), Part(GreaterOrEqual, [2, 0, 0])];
    assert CoreLeq(TrueHigh(parts[0]), TrueLow(parts[1]));
    SatisfiableExactly(parts);
  }

  // ----- comparisons and fully spelled exact versions -----

  /** Exact versions spelled with all three components. */
  ghost predicate FullyExact(parts: seq<Part>) {
    forall i :: 0 <= i < |parts| && WellFormed(parts[i]) && parts[i].op == Exactly ==> |parts[i].numbers| == 3
  }

  /** Two strict bounds with no core between them. */
  ghost predicate StrictNeighbours(parts: seq<Part>, i: nat, j: nat) {
    i < |parts| && j < |parts| && HasLower(parts[i]) && HasUpper(parts[j]) &&
    !LowerOf(parts[i]).inclusive && UpperOf(parts[j]) == Bound(NextCore(LowerOf(parts[i]).core), false)
  }

  ghost predicate BelowEverything(parts: seq<Part>, j: nat) {
    j < |parts| && HasUpper(parts[j]) && UpperOf(parts[j]) == Bound(Core(0, 0, 0), false)
  }

  /** Strict neighbours, and `<0.0.0`. */
  ghost predicate EmptyGap(parts: seq<Part>) {
    (exists i, j :: StrictNeighbours(parts, i, j)) || (exists j :: BelowEverything(parts, j))
  }

  ghost predicate ComparisonsOnly(parts: seq<Part>) {
    forall i :: 0 <= i < |parts| ==> parts[i].Part? && parts[i].op != Caret && parts[i].op != Tilde
  }

  /** For fully spelled exact versions a clash of bounds is a pair of disjoint intervals. */
  lemma ClashIsDisjoint(p: Part, q: Part)
    requires HasLower(p) && HasUpper(q) && (p.op == Exactly ==> |p.numbers| == 3) &&
      (q.op == Exactly ==> |q.numbers| == 3)
    ensures Clash(LowerOf(p), UpperOf(q)) ==> CoreLeq(TrueHigh(q), TrueLow(p))
    ensures CoreLeq(TrueHigh(q), TrueLow(p)) && !Clash(LowerOf(p), UpperOf(q)) ==>
      !LowerOf(p).inclusive && UpperOf(q) == Bound(NextCore(LowerOf(p).core), false)
  {
  }

  /** A rejected constraint whose exact versions are fully spelled matches nothing. */
  lemma ContradictoryMatchesNothing(parts: seq<Part>, v: Version)
    requires FullyExact(parts) && BoundsClash(parts)
    ensures !Satisfies(v, AllOf(parts))
  {
    var i, j :| 0 <= i < |parts| && 0 <= j < |parts| && HasLower(parts[i]) && HasUpper(parts[j]) &&
      Clash(LowerOf(parts[i]), UpperOf(parts[j]));
    hide PartAdmits, LowerOf, UpperOf, Clash, TrueLow, TrueHigh;
    ClashIsDisjoint(parts[i], parts[j]);
    PartIsItsInterval(parts[i], v.core);
    PartIsItsInterval(parts[j], v.core);
  }

  /** Nothing lies in an empty gap. */
  lemma EmptyGapMatchesNothing(parts: seq<Part>, v: Version)
    requires FullyExact(parts) && EmptyGap(parts)
    ensures !Satisfies(v, AllOf(parts))
  {
    if i: nat, j: nat :| StrictNeighbours(parts, i, j) {
      PartIsItsInterval(parts[i], v.core);
      PartIsItsInterval(parts[j], v.core);
    } else {
      var j: nat :| BelowEverything(parts, j);
      PartIsItsInterval(parts[j], v.core);
    }
  }

  /** For comparisons and fully spelled exact versions validation errs only by accepting the empty
      gaps. */
  lemma ComparisonsErrByEmptyGaps(parts: seq<Part>)
    requires AllWellFormed(parts) && FullyExact(parts) && ComparisonsOnly(parts)
    ensures (exists v :: Satisfies(v, AllOf(parts))) <==> !BoundsClash(parts) && !EmptyGap(parts)
  {
    SatisfiableExactly(parts);
    if v :| Satisfies(v, AllOf(parts)) {
      if BoundsClash(parts) { ContradictoryMatchesNothing(parts, v); }
      if EmptyGap(parts) { EmptyGapMatchesNothing(parts, v); }
    } else {
      var i: nat, j: nat :| i < |parts| && j < |parts| && Bounded(parts[j]) &&
        CoreLeq(TrueHigh(parts[j]), TrueLow(parts[i]));
      hide LowerOf, UpperOf, TrueHigh, Clash;
      if HasLower(parts[i]) {
        ClashIsDisjoint(parts[i], parts[j]);
        if !Clash(LowerOf(parts[i]), UpperOf(parts[j])) { assert StrictNeighbours(parts, i, j); }
      } else {
        OnlyBelowZero(parts[j]);
        assert BelowEverything(parts, j);
      }
    }
  }

  lemma OnlyBelowZero(q: Part)
    requires Bounded(q) && q.op != Caret && q.op != Tilde && (q.op == Exactly ==> |q.numbers| == 3)
    requires CoreLeq(TrueHigh(q), Core(0, 0, 0))
    ensures HasUpper(q) && UpperOf(q) == Bound(Core(0, 0, 0), false)
  {
  }
}
