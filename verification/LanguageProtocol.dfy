/** The controller, its callers and the compiler under every interleaving: edits, timers, language
    requests, compiler turns, lost or failed replies, other clients of the compiler, and disposal. */
module LanguageProtocol {
  import opened Text
  import opened LanguageServices

  datatype OpenPhase = Sent | Replied(reply: Result<WorkspaceResult, Fault>) | Settled

  datatype OpenCall = OpenCall(workspace: Workspace, phase: OpenPhase)

  /** A suspended activation of `synchronize`: it made `call` itself, or waits for another's. */
  datatype Activation = Activation(revision: int, call: nat, owner: bool)

  datatype Progress = Syncing(activation: nat) | Asked | Answered(reply: Result<Answer, Fault>)

  /** A suspended language request. */
  datatype Request = Request(captured: Workspace, progress: Progress)

  datatype Delivery = Delivery(observed: Workspace, revision: int, hashes: Hashes)

  datatype System = System(
    controller: Controller, compiler: Compiler,
    opens: map<nat, OpenCall>, activations: map<nat, Activation>, requests: map<nat, Request>,
    delivered: seq<Delivery>, counter: nat)

  function Initial(): System {
    System(FRESH_CONTROLLER, FRESH_COMPILER, map[], map[], map[], [], 0)
  }

  datatype Step =
    | Edit(workspace: Workspace)
    | TimerFires
    | Synchronize(revision: int)
    | Ask(captured: Workspace)
    | CompilerOpens(call: nat, crash: Crash)
    | OpenFails(call: nat, fault: Fault)
    | OpenSettles(call: nat)
    | Resume(activation: nat)
    | SyncReturns(request: nat)
    | CompilerAnswers(request: nat, available: bool)
    | AskFails(request: nat, fault: Fault)
    | AnswerSettles(request: nat)
    | OtherClientOpens(workspace: Workspace, fingerprint: Option<string>, crash: Crash)
    | Dispose

  /** One turn of the loop in `synchronize`, run for activation `id` until it awaits or returns. */
  function Turned(s: System, id: nat, revision: int): System {
    match LoopTurn(s.controller, revision)
    case Return => s.(activations := s.activations - {id})
    case Await(call) => s.(activations := s.activations[id := Activation(revision, call, false)])
    case Start(w) =>
      s.(controller := s.controller.(inFlight := Some(s.counter)),
         opens := s.opens[s.counter := OpenCall(w, Sent)],
         activations := s.activations[id := Activation(revision, s.counter, true)],
         counter := s.counter + 1)
  }

  /** Calls `synchronize` as a new activation. */
  function Called(s: System, revision: int): System {
    Turned(s.(controller := EnterSynchronize(s.controller, revision), counter := s.counter + 1), s.counter, revision)
  }

  predicate Enabled(s: System, step: Step) {
    match step
    case TimerFires => s.controller.timer.Some?
    case CompilerOpens(n, _) => n in s.opens && s.opens[n].phase.Sent?
    case OpenFails(n, _) => n in s.opens && s.opens[n].phase.Sent?
    case OpenSettles(n) => n in s.opens && s.opens[n].phase.Replied?
    case Resume(id) =>
      id in s.activations && s.activations[id].call in s.opens && s.opens[s.activations[id].call].phase.Settled?
    case SyncReturns(n) =>
      n in s.requests && s.requests[n].progress.Syncing? && s.requests[n].progress.activation !in s.activations
    case CompilerAnswers(n, _) => n in s.requests && s.requests[n].progress.Asked?
    case AskFails(n, _) => n in s.requests && s.requests[n].progress.Asked?
    case AnswerSettles(n) => n in s.requests && s.requests[n].progress.Answered?
    case _ => true
  }

  function After(s: System, step: Step): System
    requires Enabled(s, step)
  {
    match step
    case Edit(w) => s.(controller := Observe(s.controller, w))
    case TimerFires => Called(s.(controller := s.controller.(timer := None)), s.controller.timer.value)
    case Synchronize(revision) => Called(s, revision)
    case Ask(captured) =>
      if s.controller.disposed || !Observes(s.controller, captured.revision) then s
      else if s.controller.accepted == captured.revision then
        s.(requests := s.requests[s.counter := Request(captured, Asked)], counter := s.counter + 1)
      else
        var r := Request(captured, Syncing(s.counter + 1));
        Called(s.(requests := s.requests[s.counter := r], counter := s.counter + 1), captured.revision)
    case CompilerOpens(n, crash) =>
      var w := s.opens[n].workspace;
      var (compiler, reply) := Open(s.compiler, w.revision, w.sources, None, crash);
      s.(compiler := compiler, opens := s.opens[n := OpenCall(w, Replied(reply))])
    case OpenFails(n, fault) => s.(opens := s.opens[n := s.opens[n].(phase := Replied(Err(fault)))])
    case OpenSettles(n) =>
      var w := s.opens[n].workspace;
      var (controller, notice) := SettleOpen(s.controller, w, s.opens[n].phase.reply);
      s.(controller := controller, opens := s.opens[n := OpenCall(w, Settled)],
         delivered := if notice.Diagnostics?
           then s.delivered + [Delivery(controller.observed.value, notice.result.revision, notice.result.hashes)]
           else s.delivered)
    case Resume(id) =>
      var a := s.activations[id];
      if a.owner then
        s.(controller := ReleaseFlight(s.controller, a.call), activations := s.activations - {id})
      else Turned(s, id, a.revision)
    case SyncReturns(n) =>
      if ReadyFor(s.controller, s.requests[n].captured.revision)
      then s.(requests := s.requests[n := s.requests[n].(progress := Asked)])
      else s.(requests := s.requests - {n})
    case CompilerAnswers(n, available) =>
      s.(requests := s.requests[n := s.requests[n].(progress :=
        Answered(Query(s.compiler, s.requests[n].captured.revision, available)))])
    case AskFails(n, fault) => s.(requests := s.requests[n := s.requests[n].(progress := Answered(Err(fault)))])
    case AnswerSettles(n) =>
      var r := s.requests[n];
      s.(requests := s.requests - {n},
         delivered := if r.progress.reply.Ok? && Delivers(s.controller, r.captured.revision)
           then s.delivered +
             [Delivery(s.controller.observed.value, r.progress.reply.value.revision, r.progress.reply.value.hashes)]
           else s.delivered)
    case OtherClientOpens(w, fingerprint, crash) =>
      s.(compiler := Open(s.compiler, w.revision, w.sources, fingerprint, crash).0)
    case Dispose => s.(controller := DisposeOf(s.controller))
  }

  /** The workspace has a positive revision, as every stored one, and content that is genuine for it. */
  ghost predicate Faithful(w: Workspace, genuine: (int, Hashes) -> bool) {
    w.revision > 0 && genuine(w.revision, HashesOf(w.sources))
  }

  ghost predicate FaithfulStep(step: Step, genuine: (int, Hashes) -> bool) {
    match step
    case Edit(w) => Faithful(w, genuine)
    case Ask(w) => Faithful(w, genuine)
    case OtherClientOpens(w, _, _) => Faithful(w, genuine)
    case _ => true
  }

  ghost predicate FaithfulRun(s: System, steps: seq<Step>, genuine: (int, Hashes) -> bool)
    decreases |steps|
  {
    steps == [] ||
    (Enabled(s, steps[0]) && FaithfulStep(steps[0], genuine) && FaithfulRun(After(s, steps[0]), steps[1..], genuine))
  }

  ghost function Outcome(s: System, steps: seq<Step>, genuine: (int, Hashes) -> bool): System
    requires FaithfulRun(s, steps, genuine)
    decreases |steps|
  {
    if steps == [] then s else Outcome(After(s, steps[0]), steps[1..], genuine)
  }

  // ----- the invariant -----

  /** The unsettled call is the one in flight, and an activation that made it is waiting for it. */
  ghost predicate SingleFlight(s: System) {
    && (forall n :: n in s.opens && !s.opens[n].phase.Settled? ==> s.controller.inFlight == Some(n))
    && (s.controller.inFlight.Some? ==> s.controller.inFlight.value in s.opens)
    && (forall n :: n in s.opens ==> n < s.counter)
    && (forall id :: id in s.activations ==> id < s.counter && s.activations[id].call in s.opens)
  }

  ghost predicate TrueCompiler(c: Compiler, genuine: (int, Hashes) -> bool) {
    && (c.revision > 0 ==> genuine(c.revision, c.documents))
    && (c.last.Some? ==> 0 < c.last.value.revision <= c.revision && genuine(c.last.value.revision, c.last.value.hashes))
  }

  ghost predicate TrueCalls(s: System, genuine: (int, Hashes) -> bool) {
    && (forall n :: n in s.opens ==> Faithful(s.opens[n].workspace, genuine))
    && (forall n :: n in s.opens && s.opens[n].phase.Replied? && s.opens[n].phase.reply.Ok? ==>
          var result := s.opens[n].phase.reply.value;
          0 < result.revision <= s.compiler.revision && genuine(result.revision, result.hashes))
    && (forall n :: n in s.requests ==> Faithful(s.requests[n].captured, genuine))
    && (forall n :: n in s.requests && !s.requests[n].progress.Syncing? ==>
          s.requests[n].captured.revision <= s.compiler.revision)
    && (forall n :: n in s.requests && s.requests[n].progress.Answered? && s.requests[n].progress.reply.Ok? ==>
          var answer := s.requests[n].progress.reply.value;
          answer.revision == s.requests[n].captured.revision && genuine(answer.revision, answer.hashes))
  }

  /** What the editor was shown was computed at the revision it was showing. */
  ghost predicate TrueDelivery(d: Delivery, genuine: (int, Hashes) -> bool) {
    d.revision == d.observed.revision && genuine(d.revision, d.hashes) && Faithful(d.observed, genuine)
  }

  // ----- one open at a time -----

  lemma TurnedSingleFlight(s: System, id: nat, revision: int)
    requires SingleFlight(s) && id < s.counter
    ensures SingleFlight(Turned(s, id, revision))
  {
    var s' := Turned(s, id, revision);
    assert forall n :: n in s.opens ==> n in s'.opens && s'.opens[n] == s.opens[n];
  }

  /** Steps that touch neither calls nor activations. */
  lemma SameFlight(s: System, s': System)
    requires SingleFlight(s) && s'.controller.inFlight == s.controller.inFlight
    requires s'.opens == s.opens && s'.activations == s.activations && s'.counter >= s.counter
    ensures SingleFlight(s')
  {
  }

  lemma CalledSingleFlight(s: System, revision: int)
    requires SingleFlight(s)
    ensures SingleFlight(Called(s, revision))
  {
    hide SingleFlight, Turned;
    var t := s.(controller := EnterSynchronize(s.controller, revision), counter := s.counter + 1);
    SameFlight(s, t);
    TurnedSingleFlight(t, s.counter, revision);
  }

  lemma PhaseSingleFlight(s: System, s': System, n: nat, phase: OpenPhase)
    requires SingleFlight(s) && n in s.opens && !s.opens[n].phase.Settled?
    requires s'.controller.inFlight == s.controller.inFlight && s'.activations == s.activations &&
      s'.counter == s.counter
    requires s'.opens == s.opens[n := OpenCall(s.opens[n].workspace, phase)]
    ensures SingleFlight(s')
  {
  }

  lemma OwnerSingleFlight(s: System, id: nat)
    requires SingleFlight(s) && Enabled(s, Resume(id)) && s.activations[id].owner
    ensures SingleFlight(After(s, Resume(id)))
  {
    var s' := After(s, Resume(id));
    assert forall m :: m in s'.activations ==> m in s.activations && s'.activations[m] == s.activations[m];
  }

  lemma SingleFlightKept(s: System, step: Step)
    requires SingleFlight(s) && Enabled(s, step)
    ensures SingleFlight(After(s, step))
  {
    var s' := After(s, step);
    match step
    case TimerFires =>
      var t := s.(controller := s.controller.(timer := None));
      SameFlight(s, t);
      CalledSingleFlight(t, s.controller.timer.value);
    case Synchronize(revision) => CalledSingleFlight(s, revision);
    case Ask(captured) => AskSingleFlight(s, captured);
    case Resume(id) =>
      if s.activations[id].owner {
        OwnerSingleFlight(s, id);
      } else {
        assert id < s.counter;
        TurnedSingleFlight(s, id, s.activations[id].revision);
      }
    case CompilerOpens(n, _) => PhaseSingleFlight(s, s', n, s'.opens[n].phase);
    case OpenFails(n, _) => PhaseSingleFlight(s, s', n, s'.opens[n].phase);
    case OpenSettles(n) => PhaseSingleFlight(s, s', n, Settled);
    case _ => SameFlight(s, s');
  }

  lemma AskSingleFlight(s: System, captured: Workspace)
    requires SingleFlight(s)
    ensures SingleFlight(After(s, Ask(captured)))
  {
    hide SingleFlight, Called;
    if !s.controller.disposed && Observes(s.controller, captured.revision) &&
        s.controller.accepted != captured.revision {
      var r := Request(captured, Syncing(s.counter + 1));
      var t := s.(requests := s.requests[s.counter := r], counter := s.counter + 1);
      SameFlight(s, t);
      CalledSingleFlight(t, captured.revision);
    } else {
      SameFlight(s, After(s, Ask(captured)));
    }
  }

  /** At most one call of `openWorkspace` by the controller is unsettled. */
  lemma AtMostOneOpen(s: System, m: nat, n: nat)
    requires SingleFlight(s) && m in s.opens && n in s.opens
    requires !s.opens[m].phase.Settled? && !s.opens[n].phase.Settled?
    ensures m == n
  {
  }

  // ----- what the compiler says is true of the revision it names -----

  lemma OpenKeepsTruth(
    c: Compiler, w: Workspace, fingerprint: Option<string>, crash: Crash, genuine: (int, Hashes) -> bool)
    requires TrueCompiler(c, genuine) && Faithful(w, genuine) && 0 <= c.revision
    ensures var (c', reply) := Open(c, w.revision, w.sources, fingerprint, crash);
      TrueCompiler(c', genuine) && c.revision <= c'.revision &&
      (reply.Ok? ==> 0 < reply.value.revision <= c'.revision && genuine(reply.value.revision, reply.value.hashes))
  {
  }

  ghost predicate TrueAnswer(r: Request, genuine: (int, Hashes) -> bool) {
    Faithful(r.captured, genuine) &&
    (r.progress.Answered? && r.progress.reply.Ok? ==>
       r.progress.reply.value.revision == r.captured.revision &&
       genuine(r.captured.revision, r.progress.reply.value.hashes))
  }

  lemma QueryIsTrue(c: Compiler, r: Request, available: bool, genuine: (int, Hashes) -> bool)
    requires TrueCompiler(c, genuine) && Faithful(r.captured, genuine)
    ensures TrueAnswer(r.(progress := Answered(Query(c, r.captured.revision, available))), genuine)
  {
  }

  /** What a turn of the loop leaves alone. */
  lemma TurnedFrame(s: System, id: nat, revision: int, genuine: (int, Hashes) -> bool)
    requires TrueCalls(s, genuine) && (s.controller.observed.Some? ==> Faithful(s.controller.observed.value, genuine))
    ensures var s' := Turned(s, id, revision);
      TrueCalls(s', genuine) && s'.compiler == s.compiler && s'.delivered == s.delivered &&
      s'.controller.observed == s.controller.observed && s'.controller.accepted == s.controller.accepted
  {
  }

  /** Everything in the invariant but the flight. */
  ghost predicate Truth(s: System, genuine: (int, Hashes) -> bool) {
    && TrueCompiler(s.compiler, genuine)
    && TrueCalls(s, genuine)
    && 0 <= s.controller.accepted <= s.compiler.revision
    && (s.controller.observed.Some? ==> Faithful(s.controller.observed.value, genuine))
    && forall i :: 0 <= i < |s.delivered| ==> TrueDelivery(s.delivered[i], genuine)
  }

  lemma TurnedTruth(s: System, id: nat, revision: int, genuine: (int, Hashes) -> bool)
    requires Truth(s, genuine)
    ensures Truth(Turned(s, id, revision), genuine)
  {
    TurnedFrame(s, id, revision, genuine);
  }

  /** Steps that touch none of what is stated. */
  lemma SameTruth(s: System, s': System, genuine: (int, Hashes) -> bool)
    requires Truth(s, genuine)
    requires s'.compiler == s.compiler && s'.opens == s.opens && s'.requests == s.requests &&
      s'.delivered == s.delivered
    requires s'.controller.observed == s.controller.observed && s'.controller.accepted == s.controller.accepted
    ensures Truth(s', genuine)
  {
  }

  lemma NewRequestTruth(s: System, n: nat, r: Request, counter: nat, genuine: (int, Hashes) -> bool)
    requires Truth(s, genuine) && Faithful(r.captured, genuine) && !r.progress.Answered?
    requires !r.progress.Syncing? ==> r.captured.revision <= s.compiler.revision
    ensures Truth(s.(requests := s.requests[n := r], counter := counter), genuine)
  {
  }

  lemma CalledTruth(s: System, revision: int, genuine: (int, Hashes) -> bool)
    requires Truth(s, genuine)
    ensures Truth(Called(s, revision), genuine)
  {
    hide Turned, Truth;
    var t := s.(controller := EnterSynchronize(s.controller, revision), counter := s.counter + 1);
    SameTruth(s, t, genuine);
    TurnedTruth(t, s.counter, revision, genuine);
  }

  lemma AcceptedWithin(s: System, genuine: (int, Hashes) -> bool)
    requires Truth(s, genuine)
    ensures s.controller.accepted <= s.compiler.revision
  {
  }

  lemma AskCases(s: System, captured: Workspace)
    ensures After(s, Ask(captured)) ==
      if s.controller.disposed || !Observes(s.controller, captured.revision) then s
      else if s.controller.accepted == captured.revision then
        s.(requests := s.requests[s.counter := Request(captured, Asked)], counter := s.counter + 1)
      else
        var r := Request(captured, Syncing(s.counter + 1));
        Called(s.(requests := s.requests[s.counter := r], counter := s.counter + 1), captured.revision)
  {
  }

  lemma AskTruth(s: System, captured: Workspace, genuine: (int, Hashes) -> bool)
    requires Truth(s, genuine) && Faithful(captured, genuine)
    ensures Truth(After(s, Ask(captured)), genuine)
  {
    AcceptedWithin(s, genuine);
    AskCases(s, captured);
    hide Called, Truth, Faithful, After;
    if s.controller.accepted == captured.revision {
      NewRequestTruth(s, s.counter, Request(captured, Asked), s.counter + 1, genuine);
    } else {
      var r := Request(captured, Syncing(s.counter + 1));
      NewRequestTruth(s, s.counter, r, s.counter + 1, genuine);
      CalledTruth(s.(requests := s.requests[s.counter := r], counter := s.counter + 1), captured.revision, genuine);
    }
  }

  lemma CompilerOpensTruth(s: System, n: nat, crash: Crash, genuine: (int, Hashes) -> bool)
    requires Truth(s, genuine) && Enabled(s, CompilerOpens(n, crash))
    ensures Truth(After(s, CompilerOpens(n, crash)), genuine)
  {
    OpenKeepsTruth(s.compiler, s.opens[n].workspace, None, crash, genuine);
  }

  lemma SettledTruth(s: System, n: nat, genuine: (int, Hashes) -> bool)
    requires Truth(s, genuine) && n in s.opens
    ensures Truth(s.(opens := s.opens[n := OpenCall(s.opens[n].workspace, Settled)]), genuine)
  {
    var opens := s.opens[n := OpenCall(s.opens[n].workspace, Settled)];
    assert forall m :: m in opens && m != n ==> m in s.opens && opens[m] == s.opens[m];
  }

  lemma NoticeTruth(s: System, controller: Controller, delivered: seq<Delivery>, genuine: (int, Hashes) -> bool)
    requires Truth(s, genuine) && controller.observed == s.controller.observed
    requires 0 <= controller.accepted <= s.compiler.revision
    requires delivered == s.delivered || exists d :: TrueDelivery(d, genuine) && delivered == s.delivered + [d]
    ensures Truth(s.(controller := controller, delivered := delivered), genuine)
  {
    hide TrueCompiler, TrueDelivery, Faithful;
  }

  lemma OpenSettlesTruth(s: System, n: nat, genuine: (int, Hashes) -> bool)
    requires Truth(s, genuine) && Enabled(s, OpenSettles(n))
    ensures Truth(After(s, OpenSettles(n)), genuine)
  {
    var s' := After(s, OpenSettles(n));
    var settled := s.(opens := s.opens[n := OpenCall(s.opens[n].workspace, Settled)]);
    SettledTruth(s, n, genuine);
    if |s'.delivered| > |s.delivered| {
      assert TrueDelivery(s'.delivered[|s.delivered|], genuine);
    }
    assert 0 <= s'.controller.accepted <= s.compiler.revision;
    hide Truth, TrueDelivery;
    NoticeTruth(settled, s'.controller, s'.delivered, genuine);
  }

  lemma AnswerSettlesTruth(s: System, n: nat, genuine: (int, Hashes) -> bool)
    requires Truth(s, genuine) && Enabled(s, AnswerSettles(n))
    ensures Truth(After(s, AnswerSettles(n)), genuine)
  {
    var s' := After(s, AnswerSettles(n));
    assert TrueAnswer(s.requests[n], genuine);
    assert TrueCalls(s', genuine) by {
      assert forall m :: m in s'.requests ==> m in s.requests && s'.requests[m] == s.requests[m];
    }
    if |s'.delivered| > |s.delivered| {
      assert TrueDelivery(s'.delivered[|s.delivered|], genuine);
    }
  }

  lemma RequestMovesTruth(s: System, n: nat, progress: Progress, genuine: (int, Hashes) -> bool)
    requires Truth(s, genuine) && n in s.requests
    requires TrueAnswer(s.requests[n].(progress := progress), genuine)
    requires !progress.Syncing? ==> s.requests[n].captured.revision <= s.compiler.revision
    ensures Truth(s.(requests := s.requests[n := s.requests[n].(progress := progress)]), genuine)
  {
    var r := s.requests[n].(progress := progress);
    var requests := s.requests[n := r];
    assert forall m :: m in requests && m != n ==> m in s.requests && requests[m] == s.requests[m];
  }

  lemma RequestDroppedTruth(s: System, n: nat, genuine: (int, Hashes) -> bool)
    requires Truth(s, genuine)
    ensures Truth(s.(requests := s.requests - {n}), genuine)
  {
    var requests := s.requests - {n};
    assert forall m :: m in requests ==> m in s.requests && requests[m] == s.requests[m];
  }

  lemma RequestIsTrue(s: System, n: nat, genuine: (int, Hashes) -> bool)
    requires Truth(s, genuine) && n in s.requests
    ensures TrueCompiler(s.compiler, genuine) && Faithful(s.requests[n].captured, genuine)
    ensures !s.requests[n].progress.Syncing? ==> s.requests[n].captured.revision <= s.compiler.revision
  {
  }

  lemma RequestStepTruth(s: System, step: Step, genuine: (int, Hashes) -> bool)
    requires Truth(s, genuine) && Enabled(s, step)
    requires step.SyncReturns? || step.CompilerAnswers? || step.AskFails?
    ensures Truth(After(s, step), genuine)
  {
    var n := step.request;
    RequestIsTrue(s, n, genuine);
    AcceptedWithin(s, genuine);
    hide Truth, TrueCompiler, Faithful, Query;
    match step
    case SyncReturns(_) =>
      if ReadyFor(s.controller, s.requests[n].captured.revision) {
        RequestMovesTruth(s, n, Asked, genuine);
      } else {
        RequestDroppedTruth(s, n, genuine);
      }
    case CompilerAnswers(_, available) =>
      QueryIsTrue(s.compiler, s.requests[n], available, genuine);
      RequestMovesTruth(s, n, Answered(Query(s.compiler, s.requests[n].captured.revision, available)), genuine);
    case AskFails(_, fault) => RequestMovesTruth(s, n, Answered(Err(fault)), genuine);
  }

  lemma EnvironmentTruth(s: System, step: Step, genuine: (int, Hashes) -> bool)
    requires Truth(s, genuine) && Enabled(s, step) && FaithfulStep(step, genuine)
    requires step.Edit? || step.OpenFails? || step.Dispose? || step.OtherClientOpens?
    ensures Truth(After(s, step), genuine)
  {
    if step.OtherClientOpens? { OpenKeepsTruth(s.compiler, step.workspace, step.fingerprint, step.crash, genuine); }
  }

  lemma TruthKept(s: System, step: Step, genuine: (int, Hashes) -> bool)
    requires Truth(s, genuine) && Enabled(s, step) && FaithfulStep(step, genuine)
    ensures Truth(After(s, step), genuine)
  {
    match step
    case TimerFires =>
      var t := s.(controller := s.controller.(timer := None));
      SameTruth(s, t, genuine);
      CalledTruth(t, s.controller.timer.value, genuine);
    case Synchronize(revision) => CalledTruth(s, revision, genuine);
    case Ask(captured) => AskTruth(s, captured, genuine);
    case CompilerOpens(n, crash) => CompilerOpensTruth(s, n, crash, genuine);
    case OpenSettles(n) => OpenSettlesTruth(s, n, genuine);
    case Resume(id) => if !s.activations[id].owner { TurnedTruth(s, id, s.activations[id].revision, genuine); }
    case SyncReturns(_) => RequestStepTruth(s, step, genuine);
    case CompilerAnswers(_, _) => RequestStepTruth(s, step, genuine);
    case AskFails(_, _) => RequestStepTruth(s, step, genuine);
    case AnswerSettles(n) => AnswerSettlesTruth(s, n, genuine);
    case _ => EnvironmentTruth(s, step, genuine);
  }

  ghost predicate Invariant(s: System, genuine: (int, Hashes) -> bool) { SingleFlight(s) && Truth(s, genuine) }

  lemma InvariantKept(s: System, step: Step, genuine: (int, Hashes) -> bool)
    requires Invariant(s, genuine) && Enabled(s, step) && FaithfulStep(step, genuine)
    ensures Invariant(After(s, step), genuine)
  {
    hide SingleFlight, Truth, After;
    SingleFlightKept(s, step);
    TruthKept(s, step, genuine);
  }

  lemma InitialInvariant(genuine: (int, Hashes) -> bool)
    ensures Invariant(Initial(), genuine)
  {
  }

  /** Over every run: one open at a time, the accepted revision never exceeds the compiler's, and
      every delivery is true. */
  lemma {:induction false} DeliveriesAreTrue(s: System, steps: seq<Step>, genuine: (int, Hashes) -> bool)
    requires Invariant(s, genuine) && FaithfulRun(s, steps, genuine)
    ensures Invariant(Outcome(s, steps, genuine), genuine)
    decreases |steps|
  {
    hide Invariant, After, Enabled;
    if steps != [] {
      InvariantKept(s, steps[0], genuine);
      DeliveriesAreTrue(After(s, steps[0]), steps[1..], genuine);
    }
  }

  /** Whatever the workspaces contain, every result or diagnostics set delivered was computed by the
      compiler at exactly the revision observed at delivery. */
  lemma DeliveredAtObservedRevision(steps: seq<Step>, genuine: (int, Hashes) -> bool)
    requires FaithfulRun(Initial(), steps, genuine)
    ensures var s := Outcome(Initial(), steps, genuine);
      SingleFlight(s) && s.controller.accepted <= s.compiler.revision &&
      forall d :: d in s.delivered ==> d.revision == d.observed.revision
  {
    InitialInvariant(genuine);
    DeliveriesAreTrue(Initial(), steps, genuine);
  }

  /** Nothing reaches the editor after disposal. */
  lemma SilentAfterDisposal(s: System, step: Step)
    requires Enabled(s, step) && s.controller.disposed
    ensures After(s, step).delivered == s.delivered && After(s, step).controller.disposed
  {
  }

  // ----- a revision whose opening failed -----

  /** The compiler is at the revision without a result for it, and nothing newer is in sight. */
  ghost predicate Dark(s: System, revision: int) {
    && s.compiler.revision == revision
    && (s.compiler.last.Some? ==> s.compiler.last.value.revision < revision)
    && s.controller.accepted < revision
    && (s.controller.observed.Some? ==> s.controller.observed.value.revision <= revision)
    && (forall n :: n in s.opens && s.opens[n].phase.Sent? ==> s.opens[n].workspace.revision <= revision)
    && (forall n :: n in s.opens && s.opens[n].phase.Replied? && s.opens[n].phase.reply.Ok? ==>
          s.opens[n].phase.reply.value.revision < revision)
    && (forall n :: n in s.requests && !s.requests[n].progress.Syncing? ==> s.requests[n].captured.revision < revision)
  }

  /** An open of a newer revision that fails in the compiler, with nothing newer observed. */
  lemma FailedOpenIsDark(s: System, n: nat, crash: Crash, genuine: (int, Hashes) -> bool)
    requires Invariant(s, genuine) && Enabled(s, CompilerOpens(n, crash)) && crash != NoCrash
    requires var w := s.opens[n].workspace; ValidSources(w.sources) && w.revision > s.compiler.revision
    requires s.controller.observed.Some? ==> s.controller.observed.value.revision <= s.opens[n].workspace.revision
    ensures Dark(After(s, CompilerOpens(n, crash)), s.opens[n].workspace.revision)
  {
    var s' := After(s, CompilerOpens(n, crash));
    assert forall m :: m in s'.opens && m != n ==> m in s.opens && s'.opens[m] == s.opens[m];
    assert forall m :: m in s.opens && !s.opens[m].phase.Settled? ==> m == n;
  }

  lemma TurnedDark(s: System, id: nat, turned: int, revision: int)
    requires Dark(s, revision)
    ensures Dark(Turned(s, id, turned), revision) && Turned(s, id, turned).delivered == s.delivered
  {
  }

  lemma SameDark(s: System, s': System, revision: int)
    requires Dark(s, revision) && s'.compiler == s.compiler && s'.opens == s.opens && s'.requests == s.requests
    requires s'.controller.observed == s.controller.observed && s'.controller.accepted == s.controller.accepted
    ensures Dark(s', revision)
  {
  }

  lemma CalledDark(s: System, called: int, revision: int)
    requires Dark(s, revision)
    ensures Dark(Called(s, called), revision) && Called(s, called).delivered == s.delivered
  {
    hide Turned, Dark;
    var t := s.(controller := EnterSynchronize(s.controller, called), counter := s.counter + 1);
    SameDark(s, t, revision);
    TurnedDark(t, s.counter, called, revision);
  }

  lemma NewRequestDark(s: System, n: nat, r: Request, counter: nat, revision: int)
    requires Dark(s, revision) && (!r.progress.Syncing? ==> r.captured.revision < revision)
    ensures Dark(s.(requests := s.requests[n := r], counter := counter), revision)
  {
  }

  lemma AskDark(s: System, captured: Workspace, revision: int)
    requires Dark(s, revision)
    ensures Dark(After(s, Ask(captured)), revision) && After(s, Ask(captured)).delivered == s.delivered
  {
    AskCases(s, captured);
    assert s.controller.accepted < revision;
    hide Called, Dark, After;
    if s.controller.accepted == captured.revision {
      NewRequestDark(s, s.counter, Request(captured, Asked), s.counter + 1, revision);
    } else {
      var r := Request(captured, Syncing(s.counter + 1));
      NewRequestDark(s, s.counter, r, s.counter + 1, revision);
      CalledDark(s.(requests := s.requests[s.counter := r], counter := s.counter + 1), captured.revision, revision);
    }
  }

  /** Whatever is delivered is of an older revision. */
  ghost predicate OlderOnly(s: System, s': System, revision: int) {
    s.delivered <= s'.delivered &&
    forall i :: |s.delivered| <= i < |s'.delivered| ==> s'.delivered[i].revision < revision
  }

  lemma OpenStepDark(s: System, step: Step, revision: int)
    requires Dark(s, revision) && Enabled(s, step)
    requires step.CompilerOpens? || step.OpenFails? || step.OpenSettles?
    ensures Dark(After(s, step), revision) && OlderOnly(s, After(s, step), revision)
  {
    var s' := After(s, step);
    assert forall m :: m in s'.opens && m != step.call ==> m in s.opens && s'.opens[m] == s.opens[m];
  }

  lemma RequestStepDark(s: System, step: Step, revision: int)
    requires Dark(s, revision) && Enabled(s, step)
    requires step.SyncReturns? || step.CompilerAnswers? || step.AskFails?
    ensures Dark(After(s, step), revision) && After(s, step).delivered == s.delivered
  {
    var s' := After(s, step);
    assert forall m :: m in s'.requests && m != step.request ==> m in s.requests && s'.requests[m] == s.requests[m];
  }

  lemma AnswerSettlesDark(s: System, n: nat, revision: int, genuine: (int, Hashes) -> bool)
    requires Dark(s, revision) && Truth(s, genuine) && Enabled(s, AnswerSettles(n))
    ensures Dark(After(s, AnswerSettles(n)), revision) && OlderOnly(s, After(s, AnswerSettles(n)), revision)
  {
    assert TrueAnswer(s.requests[n], genuine);
  }

  lemma EnvironmentDark(s: System, step: Step, revision: int)
    requires Dark(s, revision) && Enabled(s, step)
    requires step.Edit? || step.OtherClientOpens? ==> step.workspace.revision <= revision
    requires step.Edit? || step.Dispose? || step.OtherClientOpens?
    ensures Dark(After(s, step), revision) && After(s, step).delivered == s.delivered
  {
  }

  lemma DarkKept(s: System, step: Step, revision: int, genuine: (int, Hashes) -> bool)
    requires Dark(s, revision) && Truth(s, genuine) && Enabled(s, step)
    requires step.Edit? || step.OtherClientOpens? ==> step.workspace.revision <= revision
    ensures Dark(After(s, step), revision) && OlderOnly(s, After(s, step), revision)
  {
    hide Dark, Truth, Called, Turned;
    match step
    case TimerFires =>
      var t := s.(controller := s.controller.(timer := None));
      SameDark(s, t, revision);
      CalledDark(t, s.controller.timer.value, revision);
    case Synchronize(called) => CalledDark(s, called, revision);
    case Ask(captured) => AskDark(s, captured, revision);
    case Resume(id) =>
      if s.activations[id].owner {
        SameDark(s, After(s, step), revision);
      } else {
        TurnedDark(s, id, s.activations[id].revision, revision);
      }
    case CompilerOpens(_, _) => OpenStepDark(s, step, revision);
    case OpenFails(_, _) => OpenStepDark(s, step, revision);
    case OpenSettles(_) => OpenStepDark(s, step, revision);
    case SyncReturns(_) => RequestStepDark(s, step, revision);
    case CompilerAnswers(_, _) => RequestStepDark(s, step, revision);
    case AskFails(_, _) => RequestStepDark(s, step, revision);
    case AnswerSettles(n) => AnswerSettlesDark(s, n, revision, genuine);
    case _ => EnvironmentDark(s, step, revision);
  }

  /** After a failed open, as long as nobody moves on to a newer revision, whatever is retried, asked
      or answered, no result and no diagnostics of the revision ever reach the editor. */
  lemma {:induction false} FailedRevisionStaysDark(
    s: System, steps: seq<Step>, revision: int, genuine: (int, Hashes) -> bool)
    requires Dark(s, revision) && Invariant(s, genuine) && FaithfulRun(s, steps, genuine)
    requires forall i :: 0 <= i < |steps| && (steps[i].Edit? || steps[i].OtherClientOpens?) ==>
      steps[i].workspace.revision <= revision
    ensures Dark(Outcome(s, steps, genuine), revision) && OlderOnly(s, Outcome(s, steps, genuine), revision)
    decreases |steps|
  {
    hide Dark, After, Enabled, Truth, SingleFlight;
    if steps != [] {
      DarkKept(s, steps[0], revision, genuine);
      InvariantKept(s, steps[0], genuine);
      FailedRevisionStaysDark(After(s, steps[0]), steps[1..], revision, genuine);
    }
  }

  // ----- one revision, two contents -----

  lemma RunCons(s: System, step: Step, rest: seq<Step>, genuine: (int, Hashes) -> bool)
    requires Enabled(s, step) && FaithfulStep(step, genuine) && FaithfulRun(After(s, step), rest, genuine)
    ensures FaithfulRun(s, [step] + rest, genuine)
    ensures Outcome(s, [step] + rest, genuine) == Outcome(After(s, step), rest, genuine)
  {
    hide Enabled, After, FaithfulStep;
    assert ([step] + rest)[1..] == rest;
  }

  lemma NoSteps(s: System, genuine: (int, Hashes) -> bool)
    ensures FaithfulRun(s, [], genuine) && Outcome(s, [], genuine) == s
  {
  }

  /** One run after another is a run. */
  lemma {:induction false} RunAppend(s: System, first: seq<Step>, rest: seq<Step>, genuine: (int, Hashes) -> bool)
    requires FaithfulRun(s, first, genuine) && FaithfulRun(Outcome(s, first, genuine), rest, genuine)
    ensures FaithfulRun(s, first + rest, genuine)
    ensures Outcome(s, first + rest, genuine) == Outcome(Outcome(s, first, genuine), rest, genuine)
    decreases |first|
  {
    hide Enabled, After, FaithfulStep;
    if first == [] {
      assert first + rest == rest;
    } else {
      RunAppend(After(s, first[0]), first[1..], rest, genuine);
      RunCons(s, first[0], first[1..] + rest, genuine);
      assert first + rest == [first[0]] + (first[1..] + rest);
    }
  }

  /** The controller once it has accepted `w`, its only call settled. */
  function Accepted(w: Workspace): System {
    var hashes := HashesOf(w.sources);
    var result := WorkspaceResult(w.revision, hashes);
    System(Controller(Some(w), w.revision, Some(1), None, false, false),
           Compiler(w.revision, hashes, None, Some(result)),
           map[1 := OpenCall(w, Settled)], map[0 := Activation(w.revision, 1, true)], map[],
           [Delivery(w, w.revision, hashes)], 2)
  }

  /** The workspace is observed, opened and accepted. */
  function Accepting(w: Workspace): seq<Step> {
    [Step.Edit(w), Synchronize(w.revision), CompilerOpens(1, NoCrash), OpenSettles(1)]
  }

  lemma AcceptFirst(w: Workspace, genuine: (int, Hashes) -> bool)
    requires Faithful(w, genuine) && ValidSources(w.sources)
    ensures FaithfulRun(Initial(), Accepting(w), genuine)
    ensures Outcome(Initial(), Accepting(w), genuine) == Accepted(w)
  {
    var s0 := Initial();
    var s1 := After(s0, Edit(w));
    var s2 := After(s1, Synchronize(w.revision));
    hide HashesOf, ValidSources, FaithfulRun, Outcome;
    assert s2.opens == map[1 := OpenCall(w, Sent)] && s2.activations == map[0 := Activation(w.revision, 1, true)];
    var s3 := After(s2, CompilerOpens(1, NoCrash));
    var s4 := After(s3, OpenSettles(1));
    assert s4.opens == map[1 := OpenCall(w, Settled)];
    assert s4 == Accepted(w);
    NoSteps(s4, genuine);
    RunCons(s3, OpenSettles(1), [], genuine);
    var last := [OpenSettles(1)] + [];
    RunCons(s2, CompilerOpens(1, NoCrash), last, genuine);
    RunCons(s1, Synchronize(w.revision), [CompilerOpens(1, NoCrash)] + last, genuine);
    RunCons(s0, Edit(w), [Synchronize(w.revision)] + ([CompilerOpens(1, NoCrash)] + last), genuine);
    assert [Edit(w)] + ([Synchronize(w.revision)] + ([CompilerOpens(1, NoCrash)] + last)) == Accepting(w);
  }

  /** The workspace replaces the accepted one and is asked about. */
  function Asking(w: Workspace): seq<Step> {
    [Step.Edit(w), Ask(w), CompilerAnswers(2, true), AnswerSettles(2)]
  }

  /** A second workspace with the accepted revision and other content is not opened again: a language
      request made on it is answered from the first one's content and delivered. */
  lemma SameRevisionOtherContent(first: Workspace, second: Workspace, genuine: (int, Hashes) -> bool)
    requires Faithful(second, genuine) && second.revision == first.revision
    requires HashesOf(first.sources) != HashesOf(second.sources)
    ensures FaithfulRun(Accepted(first), Asking(second), genuine)
    ensures var t := Outcome(Accepted(first), Asking(second), genuine);
      |t.delivered| == 2 && t.delivered[1].observed == second && t.delivered[1].hashes != HashesOf(second.sources)
  {
    hide HashesOf, ValidSources, FaithfulRun, Outcome;
    var s0 := Accepted(first);
    var s1 := After(s0, Edit(second));
    var s2 := After(s1, Ask(second));
    var s3 := After(s2, CompilerAnswers(2, true));
    var s4 := After(s3, AnswerSettles(2));
    NoSteps(s4, genuine);
    RunCons(s3, AnswerSettles(2), [], genuine);
    var last := [AnswerSettles(2)] + [];
    RunCons(s2, CompilerAnswers(2, true), last, genuine);
    RunCons(s1, Ask(second), [CompilerAnswers(2, true)] + last, genuine);
    RunCons(s0, Edit(second), [Ask(second)] + ([CompilerAnswers(2, true)] + last), genuine);
    assert [Edit(second)] + ([Ask(second)] + ([CompilerAnswers(2, true)] + last)) == Asking(second);
  }

  // ----- exactly when answers come from the observed content -----

  /** Admitted workspaces of one revision have one content. */
  ghost predicate Determines(genuine: (int, Hashes) -> bool) {
    forall r, h, h' :: r > 0 && genuine(r, h) && genuine(r, h') ==> h == h'
  }

  /** In every run over admitted workspaces, whatever is delivered was computed from exactly the
      sources the editor was showing. */
  ghost predicate AnswersTheObserved(genuine: (int, Hashes) -> bool) {
    forall steps :: FaithfulRun(Initial(), steps, genuine) ==>
      forall d :: d in Outcome(Initial(), steps, genuine).delivered ==> d.hashes == HashesOf(d.observed.sources)
  }

  /** Distinct, proper sources with the given hashes. */
  ghost predicate Spells(sources: seq<Source>, h: Hashes) {
    && HashesOf(sources) == h && (sources == [] <==> h == map[])
    && (forall i :: 0 <= i < |sources| ==> sources[i].uri in h && sources[i].version > 0)
    && (forall i, j :: 0 <= i < j < |sources| ==> sources[i].uri != sources[j].uri)
  }

  lemma NoSources()
    ensures Spells([], map[])
  {
  }

  lemma SourcesOneMore(rest: seq<Source>, h: Hashes, uri: string)
    requires uri in h && Spells(rest, h - {uri})
    ensures Spells(rest + [Source(uri, h[uri], 1)], h)
  {
    var sources := rest + [Source(uri, h[uri], 1)];
    assert sources[..|sources| - 1] == rest && (h - {uri})[uri := h[uri]] == h;
    assert forall i :: 0 <= i < |rest| ==> sources[i] == rest[i] && rest[i].uri != uri;
  }

  /** Some sources have the given hashes. */
  lemma {:induction false} SourcesFor(h: Hashes) returns (sources: seq<Source>)
    ensures Spells(sources, h)
    decreases |h|
  {
    hide Spells;
    NoSources();
    if h == map[] { return []; }
    var uri :| uri in h;
    var rest := SourcesFor(h - {uri});
    sources := rest + [Source(uri, h[uri], 1)];
    SourcesOneMore(rest, h, uri);
  }

  lemma TwoContentsMislead(r: int, h: Hashes, h': Hashes, genuine: (int, Hashes) -> bool)
    requires r > 0 && genuine(r, h) && genuine(r, h') && h != h' && h != map[]
    ensures !AnswersTheObserved(genuine)
  {
    var a := SourcesFor(h);
    var b := SourcesFor(h');
    var first, second := Workspace(r, a), Workspace(r, b);
    hide HashesOf, FaithfulRun, Outcome, Accepted, Accepting, Asking;
    AcceptFirst(first, genuine);
    SameRevisionOtherContent(first, second, genuine);
    RunAppend(Initial(), Accepting(first), Asking(second), genuine);
    var steps := Accepting(first) + Asking(second);
    var d := Outcome(Initial(), steps, genuine).delivered[1];
    assert d in Outcome(Initial(), steps, genuine).delivered && d.hashes != HashesOf(d.observed.sources);
  }

  /** Answers come from the observed content in every run exactly when, among the workspaces that
      occur, a revision determines the content. */
  lemma AnswersTheObservedExactly(genuine: (int, Hashes) -> bool)
    ensures AnswersTheObserved(genuine) <==> Determines(genuine)
  {
    if Determines(genuine) {
      InitialInvariant(genuine);
      forall steps, d | FaithfulRun(Initial(), steps, genuine) && d in Outcome(Initial(), steps, genuine).delivered
        ensures d.hashes == HashesOf(d.observed.sources)
      {
        DeliveriesAreTrue(Initial(), steps, genuine);
        assert TrueDelivery(d, genuine);
      }
    } else {
      var r, h, h' :| r > 0 && genuine(r, h) && genuine(r, h') && h != h';
      if h != map[] { TwoContentsMislead(r, h, h', genuine); } else { TwoContentsMislead(r, h', h, genuine); }
    }
  }

  /** In particular, every delivery was computed from exactly the sources the editor was showing if
      each revision has the content given for it. */
  lemma DeliveredFromObservedSources(steps: seq<Step>, content: int -> Hashes)
    requires var genuine := (revision: int, hashes: Hashes) => hashes == content(revision);
      FaithfulRun(Initial(), steps, genuine)
    ensures var genuine := (revision: int, hashes: Hashes) => hashes == content(revision);
      forall d :: d in Outcome(Initial(), steps, genuine).delivered ==> d.hashes == HashesOf(d.observed.sources)
  {
    var genuine := (revision: int, hashes: Hashes) => hashes == content(revision);
    AnswersTheObservedExactly(genuine);
  }
}
