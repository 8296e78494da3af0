/** What language synchronisation gets done: an observed workspace is opened by the timer alone and its
    diagnostics are shown; a question is answered, after opening the workspace if need be. */
module LanguageProgress {
  import opened Text
  import opened LanguageServices
  import opened LanguageProtocol

  /** Nothing stands in the way of opening `w`. */
  ghost predicate Idle(s: System, w: Workspace) {
    && !s.controller.disposed && s.controller.inFlight.None? && s.controller.accepted != w.revision
    && s.compiler.revision < w.revision && ValidSources(w.sources)
  }

  /** Call `n`, made by activation `id`, is to open the observed workspace. */
  ghost predicate Opening(s: System, w: Workspace, n: nat, id: nat) {
    && !s.controller.disposed && s.controller.observed == Some(w) && s.controller.inFlight == Some(n)
    && n in s.opens && s.opens[n] == OpenCall(w, Sent) && id in s.activations
    && s.activations[id] == Activation(w.revision, n, true)
    && s.compiler.revision < w.revision && ValidSources(w.sources)
  }

  function ComputedFrom(w: Workspace): Delivery { Delivery(w, w.revision, HashesOf(w.sources)) }

  /** The compiler holds the observed workspace and the controller knows. */
  ghost predicate Synchronized(s: System, w: Workspace) {
    && !s.controller.disposed && s.controller.observed == Some(w) && s.controller.accepted == w.revision
    && s.compiler.revision == w.revision && s.compiler.documents == HashesOf(w.sources)
  }

  /** An edit sets the timer, and the timer starts opening the edited workspace. */
  lemma TimerOpens(s: System, w: Workspace)
    requires Idle(s, w)
    ensures var edited := After(s, Edit(w));
      Enabled(edited, TimerFires) && Opening(After(edited, TimerFires), w, s.counter + 1, s.counter) &&
      After(edited, TimerFires).delivered == edited.delivered && After(edited, TimerFires).requests == s.requests
  {
    hide ValidSources;
  }

  /** An open that runs to its end is accepted and its diagnostics are shown. */
  lemma OpenFinishes(s: System, w: Workspace, n: nat, id: nat)
    requires Opening(s, w, n, id)
    ensures Enabled(s, CompilerOpens(n, NoCrash)) && Enabled(After(s, CompilerOpens(n, NoCrash)), OpenSettles(n))
    ensures var t := After(After(s, CompilerOpens(n, NoCrash)), OpenSettles(n));
      Synchronized(t, w) && t.delivered == s.delivered + [ComputedFrom(w)] && t.requests == s.requests &&
      Enabled(t, Resume(id)) && t.activations == s.activations && t.controller.inFlight == Some(n)
  {
    hide ValidSources, HashesOf;
  }

  function Opens(n: nat): seq<Step> { [CompilerOpens(n, NoCrash)] + ([OpenSettles(n)] + []) }

  lemma OpensRun(s: System, w: Workspace, n: nat, id: nat, genuine: (int, Hashes) -> bool)
    requires Opening(s, w, n, id)
    ensures FaithfulRun(s, Opens(n), genuine)
    ensures Outcome(s, Opens(n), genuine) == After(After(s, CompilerOpens(n, NoCrash)), OpenSettles(n))
  {
    OpenFinishes(s, w, n, id);
    hide Enabled, After, Opening;
    var s1 := After(s, CompilerOpens(n, NoCrash));
    NoSteps(After(s1, OpenSettles(n)), genuine);
    RunCons(s1, OpenSettles(n), [], genuine);
    RunCons(s, CompilerOpens(n, NoCrash), [OpenSettles(n)] + [], genuine);
  }

  function EditToDiagnostics(s: System, w: Workspace): seq<Step> {
    [Edit(w)] + ([TimerFires] + Opens(s.counter + 1))
  }

  lemma IsIdle(s: System, w: Workspace, genuine: (int, Hashes) -> bool)
    requires Invariant(s, genuine) && ValidSources(w.sources)
    requires !s.controller.disposed && s.controller.inFlight.None? && s.compiler.revision < w.revision
    ensures Idle(s, w)
  {
    AcceptedWithin(s, genuine);
  }

  /** In any reachable state with an undisposed controller that has nothing in flight, an edit to a
      workspace newer than the compiler's is followed, with no request of anybody's and only by the timer
      and the compiler's reply, by its own diagnostics. */
  lemma EditsAreDiagnosed(s: System, w: Workspace, genuine: (int, Hashes) -> bool)
    requires Invariant(s, genuine) && Faithful(w, genuine) && ValidSources(w.sources)
    requires !s.controller.disposed && s.controller.inFlight.None? && s.compiler.revision < w.revision
    ensures FaithfulRun(s, EditToDiagnostics(s, w), genuine)
    ensures var t := Outcome(s, EditToDiagnostics(s, w), genuine);
      Synchronized(t, w) && t.delivered == s.delivered + [ComputedFrom(w)]
  {
    hide Invariant, ValidSources, HashesOf, After, Opening, Idle, Synchronized, FaithfulRun, Outcome, Opens;
    IsIdle(s, w, genuine);
    TimerOpens(s, w);
    var edited := After(s, Edit(w));
    TimerFinishes(edited, w, s.counter + 1, s.counter, genuine);
    SameDelivered(s, w);
    RunCons(s, Edit(w), [TimerFires] + Opens(s.counter + 1), genuine);
  }

  lemma SameDelivered(s: System, w: Workspace)
    ensures After(s, Edit(w)).delivered == s.delivered
  {
  }

  lemma TimerFinishes(s: System, w: Workspace, n: nat, id: nat, genuine: (int, Hashes) -> bool)
    requires Enabled(s, TimerFires) && Opening(After(s, TimerFires), w, n, id)
    requires After(s, TimerFires).delivered == s.delivered
    ensures FaithfulRun(s, [TimerFires] + Opens(n), genuine)
    ensures var t := Outcome(s, [TimerFires] + Opens(n), genuine);
      Synchronized(t, w) && t.delivered == s.delivered + [ComputedFrom(w)]
  {
    hide After, Opening, Synchronized, HashesOf;
    var s1 := After(s, TimerFires);
    OpenFinishes(s1, w, n, id);
    OpensRun(s1, w, n, id, genuine);
    hide FaithfulRun, Outcome;
    RunCons(s, TimerFires, Opens(n), genuine);
  }

  // ----- questions -----

  /** Request `n` has been sent to the compiler. */
  ghost predicate Waiting(s: System, w: Workspace, n: nat) {
    n in s.requests && s.requests[n] == Request(w, Asked) && Synchronized(s, w)
  }

  function Answering(n: nat): seq<Step> { [CompilerAnswers(n, true)] + ([AnswerSettles(n)] + []) }

  lemma AnswerFinishes(s: System, w: Workspace, n: nat, genuine: (int, Hashes) -> bool)
    requires Waiting(s, w, n)
    ensures FaithfulRun(s, Answering(n), genuine)
    ensures var t := Outcome(s, Answering(n), genuine);
      Synchronized(t, w) && t.delivered == s.delivered + [ComputedFrom(w)] && n !in t.requests
  {
    var s1 := After(s, CompilerAnswers(n, true));
    var s2 := After(s1, AnswerSettles(n));
    assert s2.delivered == s.delivered + [ComputedFrom(w)];
    NoSteps(s2, genuine);
    RunCons(s1, AnswerSettles(n), [], genuine);
    RunCons(s, CompilerAnswers(n, true), [AnswerSettles(n)] + [], genuine);
  }

  /** A question about the workspace that the compiler holds is answered from its content. */
  lemma QuestionsAreAnswered(s: System, w: Workspace, genuine: (int, Hashes) -> bool)
    requires Synchronized(s, w) && Faithful(w, genuine)
    ensures FaithfulRun(s, [Ask(w)] + Answering(s.counter), genuine)
    ensures Outcome(s, [Ask(w)] + Answering(s.counter), genuine).delivered == s.delivered + [ComputedFrom(w)]
  {
    hide HashesOf;
    var s1 := After(s, Ask(w));
    assert Waiting(s1, w, s.counter);
    AnswerFinishes(s1, w, s.counter, genuine);
    RunCons(s, Ask(w), Answering(s.counter), genuine);
  }

  /** A question about an observed workspace that has not been opened opens it first. */
  lemma AskOpens(s: System, w: Workspace)
    requires Idle(s, w) && s.controller.observed == Some(w)
    ensures var t := After(s, Ask(w));
      Opening(t, w, s.counter + 2, s.counter + 1) && t.delivered == s.delivered &&
      s.counter in t.requests && t.requests[s.counter] == Request(w, Syncing(s.counter + 1))
  {
    hide ValidSources;
    AskCases(s, w);
  }

  lemma SyncGoesOn(s: System, w: Workspace, n: nat, id: nat)
    requires Synchronized(s, w) && n in s.requests && s.requests[n] == Request(w, Syncing(id))
    requires Enabled(s, Resume(id)) && s.activations[id].owner
    ensures var t := After(s, Resume(id));
      Enabled(t, SyncReturns(n)) && Waiting(After(t, SyncReturns(n)), w, n) &&
      After(t, SyncReturns(n)).delivered == s.delivered
  {
    hide HashesOf;
  }

  function Continuing(id: nat, n: nat): seq<Step> { [Resume(id)] + ([SyncReturns(n)] + Answering(n)) }

  lemma SyncFinishes(s: System, w: Workspace, n: nat, id: nat, genuine: (int, Hashes) -> bool)
    requires Synchronized(s, w) && n in s.requests && s.requests[n] == Request(w, Syncing(id))
    requires Enabled(s, Resume(id)) && s.activations[id].owner
    ensures FaithfulRun(s, Continuing(id, n), genuine)
    ensures Outcome(s, Continuing(id, n), genuine).delivered == s.delivered + [ComputedFrom(w)]
  {
    SyncGoesOn(s, w, n, id);
    var s1 := After(s, Resume(id));
    var s2 := After(s1, SyncReturns(n));
    AnswerFinishes(s2, w, n, genuine);
    hide Enabled, After, Synchronized, Waiting;
    RunCons(s1, SyncReturns(n), Answering(n), genuine);
    RunCons(s, Resume(id), [SyncReturns(n)] + Answering(n), genuine);
  }

  lemma OwnerWaits(s: System, w: Workspace, n: nat, id: nat)
    requires Opening(s, w, n, id)
    ensures id in s.activations && s.activations[id].owner
  {
  }

  function AskToAnswer(s: System, w: Workspace): seq<Step> {
    [Ask(w)] + (Opens(s.counter + 2) + Continuing(s.counter + 1, s.counter))
  }

  /** A question about an observed workspace newer than the compiler's opens it and is then answered from
      its content, after its diagnostics. */
  lemma QuestionsSynchronize(s: System, w: Workspace, genuine: (int, Hashes) -> bool)
    requires Invariant(s, genuine) && Faithful(w, genuine) && ValidSources(w.sources)
    requires !s.controller.disposed && s.controller.inFlight.None? && s.compiler.revision < w.revision
    requires s.controller.observed == Some(w)
    ensures FaithfulRun(s, AskToAnswer(s, w), genuine)
    ensures Outcome(s, AskToAnswer(s, w), genuine).delivered == s.delivered + [ComputedFrom(w), ComputedFrom(w)]
  {
    hide Invariant, ValidSources, HashesOf, After, Synchronized, Idle, Opening, FaithfulRun, Outcome, Opens, Continuing;
    IsIdle(s, w, genuine);
    AskOpens(s, w);
    var n, id, call := s.counter, s.counter + 1, s.counter + 2;
    var s1 := After(s, Ask(w));
    OpenFinishes(s1, w, call, id);
    var s2 := After(After(s1, CompilerOpens(call, NoCrash)), OpenSettles(call));
    OpensRun(s1, w, call, id, genuine);
    OwnerWaits(s1, w, call, id);
    SyncFinishes(s2, w, n, id, genuine);
    hide Enabled;
    RunAppend(s1, Opens(call), Continuing(id, n), genuine);
    RunCons(s, Ask(w), Opens(call) + Continuing(id, n), genuine);
    assert s.delivered + [ComputedFrom(w)] + [ComputedFrom(w)] == s.delivered + [ComputedFrom(w), ComputedFrom(w)];
  }

  // ----- one edit after another -----

  /** Nothing is in flight, and the compiler is where the controller left it. */
  ghost predicate Rested(s: System, revision: int) {
    !s.controller.disposed && s.controller.inFlight.None? && s.compiler.revision == revision &&
    s.controller.accepted <= revision
  }

  /** The call's owner frees its place. */
  lemma OwnerReleases(s: System, w: Workspace, n: nat, id: nat)
    requires Synchronized(s, w) && s.controller.inFlight == Some(n)
    requires Enabled(s, Resume(id)) && s.activations[id] == Activation(w.revision, n, true)
    ensures Rested(After(s, Resume(id)), w.revision) && After(s, Resume(id)).delivered == s.delivered
  {
  }

  /** From the edit to its diagnostics, and until the place is free again. */
  function Diagnosing(s: System, w: Workspace): seq<Step> {
    [Edit(w)] + ([TimerFires] + (Opens(s.counter + 1) + [Resume(s.counter)]))
  }

  lemma RestedIsIdle(s: System, revision: int, w: Workspace)
    requires Rested(s, revision) && revision < w.revision && ValidSources(w.sources)
    ensures Idle(s, w)
  {
  }

  lemma OpensAndRests(s: System, w: Workspace, n: nat, id: nat, genuine: (int, Hashes) -> bool)
    requires Opening(s, w, n, id)
    ensures FaithfulRun(s, Opens(n) + [Resume(id)], genuine)
    ensures var t := Outcome(s, Opens(n) + [Resume(id)], genuine);
      Rested(t, w.revision) && t.delivered == s.delivered + [ComputedFrom(w)]
  {
    OwnerIs(s, w, n, id);
    hide After, Opening, Synchronized, HashesOf, Opens, Rested;
    OpenFinishes(s, w, n, id);
    OpensRun(s, w, n, id, genuine);
    var t := After(After(s, CompilerOpens(n, NoCrash)), OpenSettles(n));
    OwnerReleases(t, w, n, id);
    hide Enabled;
    NoSteps(After(t, Resume(id)), genuine);
    RunCons(t, Resume(id), [], genuine);
    assert [Resume(id)] + [] == [Resume(id)];
    hide FaithfulRun, Outcome;
    RunAppend(s, Opens(n), [Resume(id)], genuine);
  }

  lemma OwnerIs(s: System, w: Workspace, n: nat, id: nat)
    requires Opening(s, w, n, id)
    ensures id in s.activations && s.activations[id] == Activation(w.revision, n, true)
  {
  }

  lemma EditIsDiagnosed(s: System, revision: int, w: Workspace, genuine: (int, Hashes) -> bool)
    requires Rested(s, revision) && revision < w.revision && ValidSources(w.sources) && Faithful(w, genuine)
    ensures FaithfulRun(s, Diagnosing(s, w), genuine)
    ensures var t := Outcome(s, Diagnosing(s, w), genuine);
      Rested(t, w.revision) && t.delivered == s.delivered + [ComputedFrom(w)]
  {
    RestedIsIdle(s, revision, w);
    hide ValidSources, HashesOf, After, Opening, Idle, Rested, FaithfulRun, Outcome, Opens;
    TimerOpens(s, w);
    SameDelivered(s, w);
    var edited := After(s, Edit(w));
    var opening := After(edited, TimerFires);
    var rest := Opens(s.counter + 1) + [Resume(s.counter)];
    OpensAndRests(opening, w, s.counter + 1, s.counter, genuine);
    hide Enabled;
    RunCons(edited, TimerFires, rest, genuine);
    RunCons(s, Edit(w), [TimerFires] + rest, genuine);
  }

  /** The run that makes one edit after the other. */
  ghost function DiagnosingAll(
    s: System, revision: int, ws: seq<Workspace>, genuine: (int, Hashes) -> bool): (steps: seq<Step>)
    requires Rested(s, revision) && Rising(revision, ws, genuine)
    ensures FaithfulRun(s, steps, genuine)
    decreases |ws|
  {
    if ws == [] then []
    else
      EditIsDiagnosed(s, revision, ws[0], genuine);
      var t := Outcome(s, Diagnosing(s, ws[0]), genuine);
      var rest := DiagnosingAll(t, ws[0].revision, ws[1..], genuine);
      RunAppend(s, Diagnosing(s, ws[0]), rest, genuine);
      Diagnosing(s, ws[0]) + rest
  }

  /** Admitted workspaces with valid sources, each newer than the one before. */
  ghost predicate Rising(revision: int, ws: seq<Workspace>, genuine: (int, Hashes) -> bool)
    decreases |ws|
  {
    ws == [] ||
    (revision < ws[0].revision && ValidSources(ws[0].sources) && Faithful(ws[0], genuine) &&
     Rising(ws[0].revision, ws[1..], genuine))
  }

  /** However many edits follow one another, each is diagnosed from its own content, in order: the place for
      the call in flight is freed every time. */
  lemma {:induction false} EveryEditIsDiagnosed(
    s: System, revision: int, ws: seq<Workspace>, genuine: (int, Hashes) -> bool)
    requires Rested(s, revision) && Rising(revision, ws, genuine)
    ensures Outcome(s, DiagnosingAll(s, revision, ws, genuine), genuine).delivered ==
      s.delivered + seq(|ws|, i requires 0 <= i < |ws| => ComputedFrom(ws[i]))
    decreases |ws|
  {
    hide Rested, ComputedFrom, Diagnosing;
    if ws != [] {
      EditIsDiagnosed(s, revision, ws[0], genuine);
      var t := Outcome(s, Diagnosing(s, ws[0]), genuine);
      var rest := DiagnosingAll(t, ws[0].revision, ws[1..], genuine);
      RunAppend(s, Diagnosing(s, ws[0]), rest, genuine);
      EveryEditIsDiagnosed(t, ws[0].revision, ws[1..], genuine);
      var tail := seq(|ws[1..]|, i requires 0 <= i < |ws[1..]| => ComputedFrom(ws[1..][i]));
      assert [ComputedFrom(ws[0])] + tail == seq(|ws|, i requires 0 <= i < |ws| => ComputedFrom(ws[i]));
      assert s.delivered + [ComputedFrom(ws[0])] + tail == s.delivered + ([ComputedFrom(ws[0])] + tail);
    }
  }

  lemma StartIsRested()
    ensures Rested(Initial(), 0)
  {
  }

  // ----- which questions go on -----

  /** The workspace asked about is still the one shown. */
  ghost predicate StillShown(s: System, n: nat) {
    n in s.requests && !s.controller.disposed && s.controller.observed.Some? &&
    s.controller.observed.value.revision == s.requests[n].captured.revision
  }

  /** A question goes on to the compiler exactly if its workspace is still shown and has been accepted, and
      its answer is handed over exactly if it is then still shown; otherwise it is dropped. */
  lemma QuestionsGoOnExactly(s: System, n: nat)
    ensures Enabled(s, SyncReturns(n)) ==> s.requests[n].progress.activation !in s.activations
    ensures Enabled(s, SyncReturns(n)) ==>
      var t := After(s, SyncReturns(n));
      if StillShown(s, n) && s.controller.accepted == s.requests[n].captured.revision
      then n in t.requests && t.requests[n] == s.requests[n].(progress := Asked)
      else n !in t.requests
    ensures Enabled(s, AnswerSettles(n)) ==>
      n !in After(s, AnswerSettles(n)).requests &&
      (|After(s, AnswerSettles(n)).delivered| == |s.delivered| + 1 <==>
         s.requests[n].progress.reply.Ok? && StillShown(s, n))
  {
  }

  // ----- an edit while an open is in flight -----

  /** Activation `k` waits for call `n`, which opens an older workspace than the one observed. */
  ghost predicate Queued(s: System, earlier: Workspace, w: Workspace, n: nat, id: nat, k: nat) {
    && !s.controller.disposed && s.controller.observed == Some(w) && s.controller.inFlight == Some(n)
    && n in s.opens && s.opens[n] == OpenCall(earlier, Sent)
    && id in s.activations && s.activations[id] == Activation(earlier.revision, n, true)
    && k in s.activations && s.activations[k] == Activation(w.revision, n, false) && k != id
    && s.compiler.revision < earlier.revision < w.revision && ValidSources(earlier.sources) && ValidSources(w.sources)
  }

  lemma EditQueues(s: System, earlier: Workspace, w: Workspace, n: nat, id: nat)
    requires Opening(s, earlier, n, id) && SingleFlight(s) && s.controller.accepted != w.revision
    requires earlier.revision < w.revision && ValidSources(w.sources)
    ensures Enabled(After(s, Edit(w)), TimerFires)
    ensures var t := After(After(s, Edit(w)), TimerFires);
      Queued(t, earlier, w, n, id, s.counter) && t.delivered == s.delivered && t.counter == s.counter + 1
  {
    hide ValidSources;
  }

  /** The older open has settled; its owner has gone on, and the waiter has not. */
  ghost predicate Freed(s: System, earlier: Workspace, w: Workspace, n: nat, k: nat) {
    && !s.controller.disposed && s.controller.observed == Some(w) && s.controller.inFlight.None?
    && s.controller.accepted == earlier.revision && n in s.opens && s.opens[n].phase.Settled?
    && k in s.activations && s.activations[k] == Activation(w.revision, n, false)
    && s.compiler.revision == earlier.revision < w.revision && ValidSources(w.sources)
  }

  lemma QueuedSettles(s: System, earlier: Workspace, w: Workspace, n: nat, id: nat, k: nat)
    requires Queued(s, earlier, w, n, id, k)
    ensures Enabled(s, CompilerOpens(n, NoCrash)) && Enabled(After(s, CompilerOpens(n, NoCrash)), OpenSettles(n))
    ensures var t := After(After(s, CompilerOpens(n, NoCrash)), OpenSettles(n));
      Enabled(t, Resume(id)) && Freed(After(t, Resume(id)), earlier, w, n, k) &&
      After(t, Resume(id)).delivered == s.delivered && After(t, Resume(id)).counter == s.counter
  {
    hide ValidSources, HashesOf;
  }

  lemma WaiterOpens(s: System, earlier: Workspace, w: Workspace, n: nat, k: nat)
    requires Freed(s, earlier, w, n, k)
    ensures Enabled(s, Resume(k)) && Opening(After(s, Resume(k)), w, s.counter, k)
    ensures After(s, Resume(k)).delivered == s.delivered
  {
    hide ValidSources;
  }

  /** Everything up to the diagnostics of the newer workspace. */
  function WaitingThenOpening(s: System, w: Workspace, n: nat, id: nat): seq<Step> {
    [Edit(w)] + ([TimerFires] + (Opens(n) + ([Resume(id)] + ([Resume(s.counter)] + Opens(s.counter + 1)))))
  }

  /** An edit made while an older workspace is being opened waits for that and is then opened itself: its own
      diagnostics are shown, and those of the older workspace are not. */
  lemma WaitingEditIsDiagnosed(
    s: System, earlier: Workspace, w: Workspace, n: nat, id: nat, genuine: (int, Hashes) -> bool)
    requires Opening(s, earlier, n, id) && SingleFlight(s) && s.controller.accepted != w.revision
    requires earlier.revision < w.revision && ValidSources(w.sources) && Faithful(w, genuine)
    ensures FaithfulRun(s, WaitingThenOpening(s, w, n, id), genuine)
    ensures var t := Outcome(s, WaitingThenOpening(s, w, n, id), genuine);
      Synchronized(t, w) && t.delivered == s.delivered + [ComputedFrom(w)]
  {
    hide ValidSources, HashesOf, After, Opening, Queued, Freed, Synchronized, FaithfulRun, Outcome, Opens, SingleFlight;
    EditQueues(s, earlier, w, n, id);
    var edited := After(s, Edit(w));
    var queued := After(edited, TimerFires);
    QueueIsDiagnosed(queued, earlier, w, n, id, s.counter, genuine);
    var rest := Opens(n) + ([Resume(id)] + ([Resume(s.counter)] + Opens(s.counter + 1)));
    hide Enabled;
    RunCons(edited, TimerFires, rest, genuine);
    RunCons(s, Edit(w), [TimerFires] + rest, genuine);
  }

  lemma QueueIsDiagnosed(
    s: System, earlier: Workspace, w: Workspace, n: nat, id: nat, k: nat, genuine: (int, Hashes) -> bool)
    requires Queued(s, earlier, w, n, id, k)
    ensures var steps := Opens(n) + ([Resume(id)] + ([Resume(k)] + Opens(s.counter)));
      FaithfulRun(s, steps, genuine) &&
      var t := Outcome(s, steps, genuine);
      Synchronized(t, w) && t.delivered == s.delivered + [ComputedFrom(w)]
  {
    hide ValidSources, HashesOf, After, Opening, Queued, Freed, Synchronized, FaithfulRun, Outcome;
    QueuedSettles(s, earlier, w, n, id, k);
    var s1 := After(s, CompilerOpens(n, NoCrash));
    var s2 := After(s1, OpenSettles(n));
    var s3 := After(s2, Resume(id));
    WaiterOpens(s3, earlier, w, n, k);
    var s4 := After(s3, Resume(k));
    OpenFinishes(s4, w, s.counter, k);
    OpensRun(s4, w, s.counter, k, genuine);
    hide Enabled;
    var last := [Resume(k)] + Opens(s.counter);
    RunCons(s3, Resume(k), Opens(s.counter), genuine);
    RunCons(s2, Resume(id), last, genuine);
    RunCons(s1, OpenSettles(n), [Resume(id)] + last, genuine);
    RunCons(s, CompilerOpens(n, NoCrash), [OpenSettles(n)] + ([Resume(id)] + last), genuine);
    assert Opens(n) + ([Resume(id)] + last) ==
      [CompilerOpens(n, NoCrash)] + ([OpenSettles(n)] + ([Resume(id)] + last));
  }

  // ----- an open that is lost before the compiler -----

  /** An open that fails before it reaches the compiler is reported, unless as stale, and gives its place back;
      synchronising again then opens the same workspace. */
  lemma LostOpenIsRetried(s: System, w: Workspace, n: nat, id: nat, fault: Fault)
    requires Opening(s, w, n, id) && s.controller.accepted != w.revision && fault != StaleWorkspace
    ensures Enabled(s, OpenFails(n, fault)) && Enabled(After(s, OpenFails(n, fault)), OpenSettles(n))
    ensures var t := After(After(s, OpenFails(n, fault)), OpenSettles(n));
      t.controller.failed && t.delivered == s.delivered && Enabled(t, Resume(id)) &&
      var again := After(After(t, Resume(id)), Synchronize(w.revision));
      Opening(again, w, s.counter + 1, s.counter) && again.delivered == s.delivered
  {
    hide ValidSources;
  }

  // ----- the other steps -----

  /** A synchronisation ends exactly when nothing is left to do for its revision, and one that waits does not
      own the call it waits for. */
  lemma TurnsEndExactly(s: System, id: nat, revision: int)
    ensures var t := Turned(s, id, revision);
      (id in t.activations <==> !LoopTurn(s.controller, revision).Return?) &&
      (LoopTurn(s.controller, revision).Await? ==>
         t.activations[id] == Activation(revision, LoopTurn(s.controller, revision).call, false))
  {
  }

  /** A question that fails is dropped without a delivery. */
  lemma FailedQuestionsAreDropped(s: System, n: nat, fault: Fault)
    requires Enabled(s, AskFails(n, fault))
    ensures Enabled(After(s, AskFails(n, fault)), AnswerSettles(n))
    ensures var t := After(After(s, AskFails(n, fault)), AnswerSettles(n));
      n !in t.requests && t.delivered == s.delivered
  {
  }

  /** Another client that opens a newer workspace moves the compiler on; disposal is at once. */
  lemma OthersMoveOn(s: System, w: Workspace, fingerprint: Option<string>)
    requires ValidSources(w.sources) && w.revision > s.compiler.revision
    ensures var t := After(s, OtherClientOpens(w, fingerprint, NoCrash));
      t.compiler.revision == w.revision && t.compiler.documents == HashesOf(w.sources) && t.controller == s.controller
    ensures After(s, Dispose).controller.disposed && After(s, Dispose).delivered == s.delivered
  {
    hide ValidSources, HashesOf;
  }
}
