/** Staged validation of a system specification: which findings each stage reports, and the
    waivers that hold some of them back (tools/system-spec/reference-implementation/metamodel.py). */
module StagedValidation {
  import opened Text
  import opened Ordering

  /** Stages by rank: inventory, discovery, architecture, verification, release. */
  const RELEASE: nat := 4

  datatype Expiry = OnDate(day: int) | AtStage(rank: nat)

  datatype Treatment = Mitigation | Acceptance | Avoidance | Transfer

  datatype Risk = Risk(
    id: string, target: string, treatment: Treatment, mitigatedBy: seq<string>,
    waives: Option<string>, expires: Option<Expiry>)

  /** A violated rule: the rank of the stage it belongs to, what a waiver may name to hold it back
      (the rule itself and, when it has one, its kind), and the subjects it is about. */
  datatype Finding = Finding(rank: nat, rule: string, kind: Option<string>, subject: string, subjects: set<string>)

  /** What the rules other than the waiver checks find, in order around those checks. None of them
      looks at the stage. */
  datatype Spec = Spec(
    system: string, requirements: set<string>, risks: seq<Risk>, before: seq<Finding>, after: seq<Finding>)

  predicate Expired(r: Risk, stage: nat, today: int) {
    match r.expires
    case None => false
    case Some(OnDate(day)) => day < today
    case Some(AtStage(rank)) => rank < stage
  }

  predicate ProperWaiver(r: Risk) {
    (r.treatment.Mitigation? || r.treatment.Acceptance?) && r.mitigatedBy != [] && r.expires.Some?
  }

  /** The comprehension of `active_waivers`. */
  predicate Active(r: Risk, stage: nat, today: int) {
    r.waives.Some? && ProperWaiver(r) && stage != RELEASE && !Expired(r, stage, today)
  }

  // ----- the waiver checks -----

  function UnknownMitigations(r: Risk, ms: seq<string>, requirements: set<string>): seq<Finding> {
    if ms == [] then []
    else
      (if ms[0] !in requirements then [Finding(0, "REF-09", None, r.id + " " + ms[0], {})] else []) +
      UnknownMitigations(r, ms[1..], requirements)
  }

  /** Improper waivers are reported at every stage, proper ones once they have expired. */
  function WaiverFindings(r: Risk, stage: nat, today: int): seq<Finding> {
    if r.waives.None? then []
    else if !ProperWaiver(r) then [Finding(0, "RISK-01", None, r.id, {})]
    else if Expired(r, stage, today) then [Finding(0, "RISK-02", None, r.id, {})]
    else []
  }

  function RiskFindings(risks: seq<Risk>, requirements: set<string>, stage: nat, today: int): seq<Finding> {
    if risks == [] then []
    else
      RiskFindings(risks[..|risks| - 1], requirements, stage, today) +
      (UnknownMitigations(risks[|risks| - 1], risks[|risks| - 1].mitigatedBy, requirements) +
       WaiverFindings(risks[|risks| - 1], stage, today))
  }

  function AllFindings(s: Spec, stage: nat, today: int): seq<Finding> {
    s.before + RiskFindings(s.risks, s.requirements, stage, today) + s.after
  }

  // ----- what a stage reports -----

  /** A waiver names the rule or its kind, and one of the subjects or the whole system; a rule
      without a kind cannot be waived. */
  predicate Covers(r: Risk, f: Finding, system: string) {
    f.kind.Some? && f.kind.value != f.rule && r.waives.Some? &&
    (r.waives.value == f.rule || r.waives.value == f.kind.value) &&
    (r.target in f.subjects || r.target == system)
  }

  predicate Waived(s: Spec, f: Finding, stage: nat, today: int) {
    exists i :: 0 <= i < |s.risks| && Active(s.risks[i], stage, today) && Covers(s.risks[i], f, s.system)
  }

  predicate Reported(s: Spec, f: Finding, stage: nat, today: int) {
    f.rank <= stage && !Waived(s, f, stage, today)
  }

  function Report(s: Spec, fs: seq<Finding>, stage: nat, today: int): (r: seq<Finding>)
    ensures forall f :: f in r <==> f in fs && Reported(s, f, stage, today)
  {
    if fs == [] then []
    else
      Report(s, fs[..|fs| - 1], stage, today) +
      (if Reported(s, fs[|fs| - 1], stage, today) then [fs[|fs| - 1]] else [])
  }

  function Validated(s: Spec, stage: nat, today: int): seq<Finding> {
    Report(s, AllFindings(s, stage, today), stage, today)
  }

  /** The loop over the risks, with the two checks inside it. */
  method CheckRisks(risks: seq<Risk>, requirements: set<string>, stage: nat, today: int) returns (found: seq<Finding>)
    ensures found == RiskFindings(risks, requirements, stage, today)
  {
    hide Expired, ProperWaiver, UnknownMitigations;
    found := [];
    var i := 0;
    while i < |risks|
      invariant 0 <= i <= |risks| && found == RiskFindings(risks[..i], requirements, stage, today)
    {
      var r := risks[i];
      var unknown := CheckMitigations(r, requirements);
      var more := unknown;
      if r.waives.Some? {
        if !ProperWaiver(r) {
          more := more + [Finding(0, "RISK-01", None, r.id, {})];
        } else if Expired(r, stage, today) {
          more := more + [Finding(0, "RISK-02", None, r.id, {})];
        }
      }
      assert more == unknown + WaiverFindings(r, stage, today);
      TakeOneMore(risks, i);
      found := found + more;
      i := i + 1;
    }
    TakeAll(risks);
  }

  method CheckMitigations(r: Risk, requirements: set<string>) returns (found: seq<Finding>)
    ensures found == UnknownMitigations(r, r.mitigatedBy, requirements)
  {
    found := [];
    var i := 0;
    while i < |r.mitigatedBy|
      invariant 0 <= i <= |r.mitigatedBy|
      invariant found + UnknownMitigations(r, r.mitigatedBy[i..], requirements) ==
        UnknownMitigations(r, r.mitigatedBy, requirements)
    {
      var m := r.mitigatedBy[i];
      assert r.mitigatedBy[i..][1..] == r.mitigatedBy[i + 1..];
      if m !in requirements { found := found + [Finding(0, "REF-09", None, r.id + " " + m, {})]; }
      i := i + 1;
    }
    assert r.mitigatedBy[i..] == [];
  }

  /** The errors of a specification at a stage. */
  method ValidateSpec(s: Spec, stage: nat, today: int) returns (errors: seq<Finding>)
    ensures errors == Validated(s, stage, today)
  {
    hide Report, RiskFindings;
    var found := CheckRisks(s.risks, s.requirements, stage, today);
    errors := Report(s, s.before + found + s.after, stage, today);
  }

  // ----- later stages report more -----

  /** The first list is the second with some elements left out. */
  predicate Subsequence(a: seq<Finding>, b: seq<Finding>) {
    a == [] ||
    (b != [] && (Subsequence(a, b[..|b| - 1]) ||
                 (a[|a| - 1] == b[|b| - 1] && Subsequence(a[..|a| - 1], b[..|b| - 1]))))
  }

  lemma {:induction false} SubsequenceSelf(a: seq<Finding>)
    ensures Subsequence(a, a)
  {
    if a != [] { SubsequenceSelf(a[..|a| - 1]); }
  }

  lemma DropLast(a: seq<Finding>, c: seq<Finding>)
    requires c != []
    ensures (a + c)[..|a + c| - 1] == a + c[..|c| - 1] && (a + c)[|a + c| - 1] == c[|c| - 1]
  {
  }

  lemma {:induction false} SubsequenceConcat(a: seq<Finding>, b: seq<Finding>, c: seq<Finding>, d: seq<Finding>)
    requires Subsequence(a, b) && Subsequence(c, d)
    ensures Subsequence(a + c, b + d)
    decreases |d|
  {
    if d == [] {
      assert a + c == a && b + d == b;
    } else {
      DropLast(b, d);
      if c == [] {
        assert a + c == a;
        SubsequenceConcat(a, b, [], d[..|d| - 1]);
        assert a + [] == a;
      } else if Subsequence(c, d[..|d| - 1]) {
        SubsequenceConcat(a, b, c, d[..|d| - 1]);
      } else {
        DropLast(a, c);
        SubsequenceConcat(a, b, c[..|c| - 1], d[..|d| - 1]);
      }
    }
  }

  /** An expired waiver stays expired. */
  lemma ExpiryIsFinal(r: Risk, early: nat, late: nat, today: int)
    requires early <= late && Expired(r, early, today)
    ensures Expired(r, late, today)
  {
  }

  lemma {:induction false} RiskFindingsGrow(
    risks: seq<Risk>, requirements: set<string>, early: nat, late: nat, today: int)
    requires early <= late
    ensures Subsequence(RiskFindings(risks, requirements, early, today), RiskFindings(risks, requirements, late, today))
  {
    hide Expired, ProperWaiver, UnknownMitigations, Subsequence;
    if risks == [] {
      SubsequenceSelf([]);
    } else {
      var n := |risks| - 1;
      var r := risks[n];
      RiskFindingsGrow(risks[..n], requirements, early, late, today);
      var unknown := UnknownMitigations(r, r.mitigatedBy, requirements);
      SubsequenceSelf(unknown);
      WaiverFindingsGrow(r, early, late, today);
      SubsequenceConcat(unknown, unknown, WaiverFindings(r, early, today), WaiverFindings(r, late, today));
      SubsequenceConcat(RiskFindings(risks[..n], requirements, early, today),
                        RiskFindings(risks[..n], requirements, late, today),
        unknown + WaiverFindings(r, early, today), unknown + WaiverFindings(r, late, today));
    }
  }

  lemma WaiverFindingsGrow(r: Risk, early: nat, late: nat, today: int)
    requires early <= late
    ensures Subsequence(WaiverFindings(r, early, today), WaiverFindings(r, late, today))
  {
    if r.waives.Some? && ProperWaiver(r) && Expired(r, early, today) { ExpiryIsFinal(r, early, late, today); }
    SubsequenceSelf(WaiverFindings(r, early, today));
  }

  /** A waiver that is active at a stage was active at every earlier one. */
  lemma WaiversOnlyLapse(r: Risk, early: nat, late: nat, today: int)
    requires early <= late <= RELEASE && Active(r, late, today)
    ensures Active(r, early, today)
  {
    if Expired(r, early, today) { ExpiryIsFinal(r, early, late, today); }
  }

  lemma ReportedLater(s: Spec, f: Finding, early: nat, late: nat, today: int)
    requires early <= late <= RELEASE && Reported(s, f, early, today)
    ensures Reported(s, f, late, today)
  {
    hide Active, Covers;
    if Waived(s, f, late, today) {
      var i :| 0 <= i < |s.risks| && Active(s.risks[i], late, today) && Covers(s.risks[i], f, s.system);
      WaiversOnlyLapse(s.risks[i], early, late, today);
    }
  }

  lemma {:induction false} ReportGrows(s: Spec, a: seq<Finding>, b: seq<Finding>, early: nat, late: nat, today: int)
    requires early <= late <= RELEASE && Subsequence(a, b)
    ensures Subsequence(Report(s, a, early, today), Report(s, b, late, today))
    decreases |b|
  {
    hide Reported;
    if b != [] && a != [] {
      var f, init := b[|b| - 1], b[..|b| - 1];
      var rest := Report(s, init, late, today);
      SubsequenceSelf([]);
      if Subsequence(a, init) {
        ReportGrows(s, a, init, early, late, today);
        AppendOne(Report(s, a, early, today), rest, f);
      } else {
        var kept := Report(s, a[..|a| - 1], early, today);
        ReportGrows(s, a[..|a| - 1], init, early, late, today);
        if Reported(s, f, early, today) { ReportedLater(s, f, early, late, today); }
        AppendOne(kept, rest, f);
        SubsequenceSelf([f]);
        SubsequenceConcat(kept, rest, [f], [f]);
        assert kept + [] == kept && rest + [] == rest;
      }
    }
  }

  lemma AppendOne(a: seq<Finding>, b: seq<Finding>, f: Finding)
    requires Subsequence(a, b)
    ensures Subsequence(a, b + [f]) && Subsequence(a, b + [])
  {
    assert (b + [f])[..|b + [f]| - 1] == b && b + [] == b;
  }

  /** For a fixed date the errors at a stage are, in order, among the errors at every later stage. */
  lemma StagesAreMonotone(s: Spec, early: nat, late: nat, today: int)
    requires early <= late <= RELEASE
    ensures Subsequence(Validated(s, early, today), Validated(s, late, today))
  {
    hide Report, RiskFindings, Subsequence;
    var a, b := RiskFindings(s.risks, s.requirements, early, today), RiskFindings(s.risks, s.requirements, late, today);
    RiskFindingsGrow(s.risks, s.requirements, early, late, today);
    SubsequenceSelf(s.before);
    SubsequenceSelf(s.after);
    SubsequenceConcat(s.before, s.before, a, b);
    SubsequenceConcat(s.before + a, s.before + b, s.after, s.after);
    ReportGrows(s, AllFindings(s, early, today), AllFindings(s, late, today), early, late, today);
  }

  /** A specification accepted at a stage is accepted at all earlier ones. */
  lemma AcceptanceIsInherited(s: Spec, early: nat, late: nat, today: int)
    requires early <= late <= RELEASE && Validated(s, late, today) == []
    ensures Validated(s, early, today) == []
  {
    hide Validated;
    StagesAreMonotone(s, early, late, today);
  }

  /** At release nothing is waived: every finding is an error. */
  lemma {:induction false} ReleaseReportsAll(s: Spec, fs: seq<Finding>, today: int)
    requires forall f :: f in fs ==> f.rank <= RELEASE
    ensures Report(s, fs, RELEASE, today) == fs
  {
    if fs != [] {
      SplitLast(fs);
      ReleaseReportsAll(s, fs[..|fs| - 1], today);
    }
  }

  // ----- what is waived and what is found -----

  /** The waiver still holds: on its day, and at its stage. */
  ghost predicate StillHolds(e: Expiry, stage: nat, today: int) {
    (exists day :: e == OnDate(day) && today <= day) || (exists rank :: e == AtStage(rank) && stage <= rank)
  }

  /** Before release a finding is held back exactly by a risk that is mitigated or accepted, names what
      mitigates it, has not expired, waives the finding's rule or kind, and is about one of the finding's
      subjects or the whole system; and only if the rule has a kind. */
  lemma WaivedExactly(s: Spec, f: Finding, stage: nat, today: int)
    ensures Waived(s, f, stage, today) <==>
      stage != RELEASE && f.kind.Some? && f.kind.value != f.rule &&
      exists r :: r in s.risks && r.treatment in {Mitigation, Acceptance} && r.mitigatedBy != [] &&
        r.waives in {Some(f.rule), f.kind} && (r.target in f.subjects || r.target == s.system) &&
        r.expires.Some? && StillHolds(r.expires.value, stage, today)
  {
    forall r: Risk | r.expires.Some?
      ensures StillHolds(r.expires.value, stage, today) <==> !Expired(r, stage, today)
    {
      ExpiredExactly(r, stage, today);
    }
    hide Expired, StillHolds;
    if Waived(s, f, stage, today) {
      var i :| 0 <= i < |s.risks| && Active(s.risks[i], stage, today) && Covers(s.risks[i], f, s.system);
      assert s.risks[i] in s.risks;
    }
    if stage != RELEASE && f.kind.Some? && f.kind.value != f.rule {
      forall r | r in s.risks && r.treatment in {Mitigation, Acceptance} && r.mitigatedBy != [] &&
        r.waives in {Some(f.rule), f.kind} && (r.target in f.subjects || r.target == s.system) &&
        r.expires.Some? && StillHolds(r.expires.value, stage, today)
        ensures Waived(s, f, stage, today)
      {
        var i :| 0 <= i < |s.risks| && s.risks[i] == r;
        assert Active(s.risks[i], stage, today) && Covers(s.risks[i], f, s.system);
      }
    }
  }

  lemma ExpiredExactly(r: Risk, stage: nat, today: int)
    ensures Expired(r, stage, today) <==> r.expires.Some? && !StillHolds(r.expires.value, stage, today)
  {
  }

  lemma {:induction false} UnknownMitigationsAre(r: Risk, ms: seq<string>, requirements: set<string>, f: Finding)
    ensures f in UnknownMitigations(r, ms, requirements) <==>
      exists m :: m in ms && m !in requirements && f == Finding(0, "REF-09", None, r.id + " " + m, {})
  {
    if ms != [] {
      UnknownMitigationsAre(r, ms[1..], requirements, f);
      assert ms == [ms[0]] + ms[1..];
    }
  }

  /** What is found about one risk. */
  ghost predicate FoundAbout(r: Risk, requirements: set<string>, stage: nat, today: int, f: Finding) {
    var proper := r.treatment in {Mitigation, Acceptance} && r.mitigatedBy != [] && r.expires.Some?;
    || (exists m :: m in r.mitigatedBy && m !in requirements && f == Finding(0, "REF-09", None, r.id + " " + m, {}))
    || (r.waives.Some? && !proper && f == Finding(0, "RISK-01", None, r.id, {}))
    || (r.waives.Some? && proper && !StillHolds(r.expires.value, stage, today) &&
        f == Finding(0, "RISK-02", None, r.id, {}))
  }

  /** The findings about risks are exactly: mitigations that are no requirement, waivers that are not
      properly given, and proper waivers that no longer hold. */
  lemma {:induction false} RiskFindingsAre(
    risks: seq<Risk>, requirements: set<string>, stage: nat, today: int, f: Finding)
    ensures f in RiskFindings(risks, requirements, stage, today) <==>
      exists r :: r in risks && FoundAbout(r, requirements, stage, today, f)
  {
    if risks != [] {
      var n := |risks| - 1;
      var r := risks[n];
      RiskFindingsAre(risks[..n], requirements, stage, today, f);
      UnknownMitigationsAre(r, r.mitigatedBy, requirements, f);
      ExpiredExactly(r, stage, today);
      hide StillHolds, Expired, UnknownMitigations;
      assert f in UnknownMitigations(r, r.mitigatedBy, requirements) + WaiverFindings(r, stage, today) <==>
        FoundAbout(r, requirements, stage, today, f);
      SplitLast(risks);
    }
  }

  /** The errors of a stage, from the risks and the findings of the other rules: those of the stage or an
      earlier one that are not waived. */
  lemma ErrorsAre(s: Spec, stage: nat, today: int, f: Finding)
    ensures f in Validated(s, stage, today) <==>
      (f in s.before || f in s.after || exists r :: r in s.risks && FoundAbout(r, s.requirements, stage, today, f)) &&
      f.rank <= stage && !Waived(s, f, stage, today)
  {
    hide Report, Waived, FoundAbout;
    RiskFindingsAre(s.risks, s.requirements, stage, today, f);
  }

  /** They are reported in the order they are found. */
  lemma {:induction false} ReportKeepsOrder(s: Spec, fs: seq<Finding>, stage: nat, today: int)
    ensures Subsequence(Report(s, fs, stage, today), fs)
  {
    hide Reported;
    if fs != [] {
      var n := |fs| - 1;
      ReportKeepsOrder(s, fs[..n], stage, today);
      SplitLast(fs);
      var rest := Report(s, fs[..n], stage, today);
      if Reported(s, fs[n], stage, today) {
        SubsequenceSelf([fs[n]]);
        SubsequenceConcat(rest, fs[..n], [fs[n]], [fs[n]]);
      } else {
        AppendOne(rest, fs[..n], fs[n]);
        assert rest + [] == rest;
      }
    }
  }
}
