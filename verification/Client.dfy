/** Request bookkeeping of the browser compiler client (web/src/client.ts). Each method and
    callback runs to completion; what a promise settled with is kept as its outcome. */
module Client {
  import opened Text
  import Json

  /** A request's random identifier; the same value names the promise its caller holds. */
  datatype Id = Id(text: string)

  datatype Error = Error(code: string, message: string)

  datatype Guard = Guard(accepts: Json.Value -> bool)

  datatype Message = Malformed | Success(id: Id, result: Json.Value) | Failure(id: Id, error: Error)

  datatype Outcome = Resolved(result: Json.Value) | Rejected(error: Error)

  /** The client's fields, the calls waiting for initialisation, and what has happened so far. */
  datatype State = State(
    pending: map<Id, Guard>, initialization: Option<Id>, terminal: Option<Error>, listening: bool,
    waiting: map<Id, Guard>, issued: map<Id, Guard>, outcomes: map<Id, Outcome>, posted: seq<Id>)

  const FAILED := "COMPILER_FAILED"

  function IsNull(): Guard { Guard((v: Json.Value) => v == Json.Null) }

  function Start(): State { State(map[], None, None, true, map[], map[], map[], []) }

  // ----- the callbacks -----

  function Settle(s: State, id: Id, outcome: Outcome): State {
    s.(pending := s.pending - {id}, outcomes := s.outcomes[id := outcome])
  }

  function ToTerminal(s: State, error: Error): State {
    if s.terminal.Some? then s
    else s.(terminal := Some(error), listening := false, pending := map[],
            outcomes := s.outcomes + map id | id in s.pending :: Rejected(error))
  }

  function OnMessage(s: State, m: Message): State {
    if !s.listening then s
    else
      match m
      case Malformed => ToTerminal(s, Error(FAILED, "Compiler worker returned an invalid response"))
      case Success(id, result) =>
        if id !in s.pending then s
        else if !s.pending[id].accepts(result) then
          ToTerminal(s, Error(FAILED, "Compiler worker returned an invalid result"))
        else Settle(s, id, Resolved(result))
      case Failure(id, error) => if id !in s.pending then s else Settle(s, id, Rejected(error))
  }

  function OnError(s: State): State {
    if !s.listening then s else ToTerminal(s, Error(FAILED, "Compiler worker failed"))
  }

  function Dispose(s: State): State { ToTerminal(s, Error(FAILED, "Compiler client has been disposed")) }

  /** The promise is created and, unless the client is terminal, the request is posted. */
  function Request(s: State, id: Id, guard: Guard): State {
    if s.terminal.Some? then
      s.(issued := s.issued[id := guard], outcomes := s.outcomes[id := Rejected(s.terminal.value)])
    else s.(issued := s.issued[id := guard], pending := s.pending[id := guard], posted := s.posted + [id])
  }

  /** Only the first call asks the worker to initialise. */
  function Initialize(s: State, id: Id): State {
    if s.initialization.Some? then s else Request(s, id, IsNull()).(initialization := Some(id))
  }

  /** A call initialises first and then waits for that promise. */
  function Call(s: State, initId: Id, id: Id, guard: Guard): State {
    var t := Initialize(s, initId);
    t.(waiting := t.waiting[id := guard], issued := t.issued[id := guard])
  }

  predicate CanProceed(s: State, id: Id) {
    id in s.waiting && s.initialization.Some? && s.initialization.value in s.outcomes
  }

  /** A waiting call goes on once initialisation has settled. */
  function Proceed(s: State, id: Id): State
    requires CanProceed(s, id)
  {
    var t := s.(waiting := s.waiting - {id});
    match s.outcomes[s.initialization.value]
    case Resolved(_) => Request(t, id, s.waiting[id])
    case Rejected(e) => t.(outcomes := t.outcomes[id := Rejected(e)])
  }

  predicate TwoFresh(s: State, initId: Id, id: Id) { initId != id && initId !in s.issued && id !in s.issued }

  /** Identifiers are new each time. */
  ghost predicate Step(s: State, t: State) {
    || (exists m :: t == OnMessage(s, m))
    || t == OnError(s)
    || t == Dispose(s)
    || (exists id :: id !in s.issued && t == Initialize(s, id))
    || (exists initId, id, guard :: TwoFresh(s, initId, id) && t == Call(s, initId, id, guard))
    || (exists id :: CanProceed(s, id) && t == Proceed(s, id))
  }

  // ----- what every run keeps -----

  /** Each issued request is in exactly one place. */
  ghost predicate Accounted(s: State) {
    && s.issued.Keys == s.waiting.Keys + s.pending.Keys + s.outcomes.Keys
    && s.waiting.Keys !! s.pending.Keys && s.waiting.Keys !! s.outcomes.Keys && s.pending.Keys !! s.outcomes.Keys
  }

  ghost predicate Guarded(s: State) {
    && (forall id :: id in s.waiting && id in s.issued ==> s.waiting[id] == s.issued[id])
    && (forall id :: id in s.pending && id in s.issued ==> s.pending[id] == s.issued[id])
    && (forall id :: id in s.outcomes && s.outcomes[id].Resolved? && id in s.issued ==>
          s.issued[id].accepts(s.outcomes[id].result))
  }

  ghost predicate TerminalQuiet(s: State) {
    (s.terminal.Some? ==> s.pending == map[]) && (s.listening <==> s.terminal.None?)
  }

  ghost predicate Ready(s: State) {
    s.initialization.Some? && s.initialization.value in s.outcomes && s.outcomes[s.initialization.value].Resolved?
  }

  /** Nothing but the initialisation is posted before it has succeeded, and nothing twice. */
  ghost predicate PostedInOrder(s: State) {
    && (s.initialization.None? ==> s.issued == map[] && s.posted == [])
    && (s.initialization.Some? ==> s.initialization.value in s.issued && s.initialization.value !in s.waiting)
    && (forall id :: id in s.posted ==> id in s.pending || id in s.outcomes)
    && (forall id :: id in s.posted && Some(id) != s.initialization ==> Ready(s))
    && (forall id :: id in s.pending ==> id in s.posted)
    && (forall i, j :: 0 <= i < j < |s.posted| ==> s.posted[i] != s.posted[j])
  }

  ghost predicate Invariant(s: State) {
    Accounted(s) && Guarded(s) && TerminalQuiet(s) && PostedInOrder(s)
  }

  lemma StartInvariant()
    ensures Invariant(Start())
  {
  }

  lemma SettleKeeps(s: State, id: Id, outcome: Outcome)
    requires Invariant(s) && id in s.pending && (outcome.Resolved? ==> s.pending[id].accepts(outcome.result))
    ensures Invariant(Settle(s, id, outcome))
  {
  }

  lemma ToTerminalKeeps(s: State, error: Error)
    requires Invariant(s)
    ensures Invariant(ToTerminal(s, error))
  {
  }

  lemma OnMessageKeeps(s: State, m: Message)
    requires Invariant(s)
    ensures Invariant(OnMessage(s, m))
  {
    hide Invariant, ToTerminal, Settle;
    match m {
      case Malformed => ToTerminalKeeps(s, Error(FAILED, "Compiler worker returned an invalid response"));
      case Success(id, result) =>
        ToTerminalKeeps(s, Error(FAILED, "Compiler worker returned an invalid result"));
        if id in s.pending && s.pending[id].accepts(result) { SettleKeeps(s, id, Resolved(result)); }
      case Failure(id, error) => if id in s.pending { SettleKeeps(s, id, Rejected(error)); }
    }
  }

  lemma InitializeKeeps(s: State, id: Id)
    requires Invariant(s) && id !in s.issued
    ensures Invariant(Initialize(s, id)) && Initialize(s, id).initialization.Some?
    ensures Initialize(s, id).issued.Keys <= s.issued.Keys + {id}
  {
  }

  lemma WaitKeeps(s: State, id: Id, guard: Guard)
    requires Invariant(s) && id !in s.issued && s.initialization.Some?
    ensures Invariant(s.(waiting := s.waiting[id := guard], issued := s.issued[id := guard]))
  {
  }

  lemma ProceedKeeps(s: State, id: Id)
    requires Invariant(s) && CanProceed(s, id)
    ensures Invariant(Proceed(s, id))
  {
    hide Invariant;
    match s.outcomes[s.initialization.value] {
      case Resolved(_) =>
        if s.terminal.Some? {
          RejectWaitingKeeps(s, id, s.terminal.value);
          StaysIssued(s, id);
        } else {
          PostWaitingKeeps(s, id);
        }
      case Rejected(e) => RejectWaitingKeeps(s, id, e);
    }
  }

  lemma StaysIssued(s: State, id: Id)
    requires Invariant(s) && id in s.waiting
    ensures s.issued[id := s.waiting[id]] == s.issued
  {
    hide PostedInOrder, TerminalQuiet;
  }

  lemma RejectWaitingKeeps(s: State, id: Id, e: Error)
    requires Invariant(s) && id in s.waiting
    ensures Invariant(s.(waiting := s.waiting - {id}, outcomes := s.outcomes[id := Rejected(e)]))
  {
  }

  lemma PostWaitingKeeps(s: State, id: Id)
    requires Invariant(s) && id in s.waiting && s.terminal.None? && Ready(s)
    ensures Invariant(Request(s.(waiting := s.waiting - {id}), id, s.waiting[id]))
  {
    var t := Request(s.(waiting := s.waiting - {id}), id, s.waiting[id]);
    assert Accounted(t) && Guarded(t) && TerminalQuiet(t) by { hide PostedInOrder; }
  }

  /** The invariant survives every step. */
  lemma InvariantKept(s: State, t: State)
    requires Invariant(s) && Step(s, t)
    ensures Invariant(t)
  {
    hide Invariant, OnMessage, ToTerminal, Initialize, Proceed, CanProceed, Request;
    if m :| t == OnMessage(s, m) { OnMessageKeeps(s, m); }
    else if t == OnError(s) { ToTerminalKeeps(s, Error(FAILED, "Compiler worker failed")); }
    else if t == Dispose(s) { ToTerminalKeeps(s, Error(FAILED, "Compiler client has been disposed")); }
    else if id :| id !in s.issued && t == Initialize(s, id) { InitializeKeeps(s, id); }
    else if initId, id, guard :| TwoFresh(s, initId, id) && t == Call(s, initId, id, guard) {
      InitializeKeeps(s, initId);
      WaitKeeps(Initialize(s, initId), id, guard);
    } else {
      var id :| CanProceed(s, id) && t == Proceed(s, id);
      ProceedKeeps(s, id);
    }
  }

  // ----- what callers rely on -----

  ghost predicate Run(run: seq<State>) {
    run != [] && run[0] == Start() && forall i :: 0 <= i < |run| - 1 ==> Step(run[i], run[i + 1])
  }

  lemma {:induction false} RunInvariant(run: seq<State>, i: nat)
    requires Run(run) && i < |run|
    ensures Invariant(run[i])
  {
    hide Step, Invariant;
    if i == 0 {
      StartInvariant();
    } else {
      RunInvariant(run, i - 1);
      assert Step(run[i - 1], run[i - 1 + 1]);
      InvariantKept(run[i - 1], run[i]);
    }
  }

  /** A settled promise never changes, an issued request keeps its guard, and a terminal client
      stays terminal with the same error and posts nothing more. */
  ghost predicate Extends(s: State, t: State) {
    && (forall id :: id in s.outcomes ==> id in t.outcomes && t.outcomes[id] == s.outcomes[id])
    && (forall id :: id in s.issued ==> id in t.issued && t.issued[id] == s.issued[id])
    && s.posted <= t.posted
    && (s.terminal.Some? ==> t.terminal == s.terminal && t.posted == s.posted)
  }

  /** Becoming terminal rejects everything still pending, with the terminal error. */
  ghost predicate Flushes(s: State, t: State) {
    s.terminal.None? && t.terminal.Some? ==>
      forall id :: id in s.pending ==> id in t.outcomes && t.outcomes[id] == Rejected(t.terminal.value)
  }

  lemma OnMessageExtends(s: State, m: Message)
    requires Invariant(s)
    ensures Extends(s, OnMessage(s, m)) && Flushes(s, OnMessage(s, m))
  {
    hide Invariant, ToTerminal, Settle, Extends, Flushes;
    Unchanged(s);
    match m {
      case Malformed => ToTerminalExtends(s, Error(FAILED, "Compiler worker returned an invalid response"));
      case Success(id, result) =>
        ToTerminalExtends(s, Error(FAILED, "Compiler worker returned an invalid result"));
        if id in s.pending { SettleExtends(s, id, Resolved(result)); }
      case Failure(id, error) => if id in s.pending { SettleExtends(s, id, Rejected(error)); }
    }
  }

  lemma SettleExtends(s: State, id: Id, outcome: Outcome)
    requires Invariant(s) && id in s.pending
    ensures Extends(s, Settle(s, id, outcome)) && Flushes(s, Settle(s, id, outcome))
  {
    hide Guarded, PostedInOrder;
  }

  lemma InitializeExtends(s: State, id: Id)
    requires Invariant(s) && id !in s.issued
    ensures Extends(s, Initialize(s, id)) && Flushes(s, Initialize(s, id))
  {
  }

  lemma CallExtends(s: State, initId: Id, id: Id, guard: Guard)
    requires Invariant(s) && initId !in s.issued && id !in s.issued && initId != id
    ensures Extends(s, Call(s, initId, id, guard)) && Flushes(s, Call(s, initId, id, guard))
  {
  }

  lemma ProceedExtends(s: State, id: Id)
    requires Invariant(s) && CanProceed(s, id)
    ensures Extends(s, Proceed(s, id)) && Flushes(s, Proceed(s, id))
  {
  }

  lemma ToTerminalExtends(s: State, error: Error)
    requires Invariant(s)
    ensures Extends(s, ToTerminal(s, error)) && Flushes(s, ToTerminal(s, error))
  {
  }

  lemma StepExtends(s: State, t: State)
    requires Invariant(s) && Step(s, t)
    ensures Extends(s, t) && Flushes(s, t)
  {
    hide Invariant, OnMessage, ToTerminal, Initialize, Proceed, Extends, Flushes;
    if m :| t == OnMessage(s, m) { OnMessageExtends(s, m); }
    else if t == OnError(s) { ToTerminalExtends(s, Error(FAILED, "Compiler worker failed")); Unchanged(s); }
    else if t == Dispose(s) { ToTerminalExtends(s, Error(FAILED, "Compiler client has been disposed")); }
    else if id :| id !in s.issued && t == Initialize(s, id) { InitializeExtends(s, id); }
    else if initId, id, guard :| TwoFresh(s, initId, id) && t == Call(s, initId, id, guard) {
      CallExtends(s, initId, id, guard);
    } else {
      var id :| CanProceed(s, id) && t == Proceed(s, id);
      ProceedExtends(s, id);
    }
  }

  lemma Unchanged(s: State)
    ensures Extends(s, s) && Flushes(s, s)
  {
  }

  lemma {:induction false} RunExtends(run: seq<State>, i: nat, j: nat)
    requires Run(run) && i <= j < |run|
    ensures Extends(run[i], run[j])
    decreases j
  {
    hide Step, Invariant;
    if i == j {
      Unchanged(run[i]);
    } else {
      RunExtends(run, i, j - 1);
      RunInvariant(run, j - 1);
      assert Step(run[j - 1], run[j - 1 + 1]);
      StepExtends(run[j - 1], run[j]);
      RunInvariant(run, i);
      ExtendsThrough(run[i], run[j - 1], run[j]);
    }
  }

  lemma ExtendsThrough(s: State, t: State, u: State)
    requires Extends(s, t) && Extends(t, u)
    ensures Extends(s, u)
  {
  }

  /** At every moment of a run a request that has been issued is in exactly one of four places:
      waiting for initialisation, pending, resolved or rejected. Once settled it stays settled the
      same way, and a resolved result passes the guard it was issued with. */
  lemma SettlesAtMostOnce(run: seq<State>, i: nat, j: nat, id: Id)
    requires Run(run) && i <= j < |run| && id in run[i].issued
    ensures var s := run[j];
      id in s.issued && s.issued[id] == run[i].issued[id] &&
      (id in s.waiting || id in s.pending || id in s.outcomes) &&
      !(id in s.waiting && id in s.pending) && !(id in s.waiting && id in s.outcomes) &&
      !(id in s.pending && id in s.outcomes) &&
      (id in run[i].outcomes ==> id in s.outcomes && s.outcomes[id] == run[i].outcomes[id]) &&
      (id in s.outcomes && s.outcomes[id].Resolved? ==> run[i].issued[id].accepts(s.outcomes[id].result))
  {
    hide Run, Step;
    RunExtends(run, i, j);
    RunInvariant(run, j);
  }

  /** Once terminal, always terminal with the first error; nothing is pending, nothing more is
      posted, and whatever was pending when the client became terminal was rejected with that error. */
  lemma TerminalIsFinal(run: seq<State>, i: nat, j: nat)
    requires Run(run) && 0 < i <= j < |run| && run[i].terminal.Some? && run[i - 1].terminal.None?
    ensures run[j].terminal == run[i].terminal && run[j].posted == run[i].posted && run[j].pending == map[]
    ensures forall id :: id in run[i - 1].pending ==>
      id in run[j].outcomes && run[j].outcomes[id] == Rejected(run[i].terminal.value)
  {
    hide Step;
    RunExtends(run, i, j);
    RunInvariant(run, j);
    RunInvariant(run, i - 1);
    assert Step(run[i - 1], run[i - 1 + 1]);
    StepExtends(run[i - 1], run[i]);
  }

  /** A terminal client leaves no call hanging: whatever still waits can go on, and is rejected. */
  lemma TerminalRejectsWaiting(run: seq<State>, i: nat, id: Id)
    requires Run(run) && i < |run| && run[i].terminal.Some? && id in run[i].waiting
    ensures var s := run[i];
      s.initialization.Some? && s.initialization.value in s.outcomes &&
      id in Proceed(s, id).outcomes && Proceed(s, id).outcomes[id].Rejected? && Proceed(s, id).posted == s.posted
  {
    hide Run;
    RunInvariant(run, i);
    var s := run[i];
    assert id in s.issued;
    assert s.initialization.Some?;
  }

  /** Nothing is posted twice, and nothing but the initialisation before it has succeeded. */
  lemma InitialisationFirst(run: seq<State>, i: nat)
    requires Run(run) && i < |run|
    ensures forall k, l :: 0 <= k < l < |run[i].posted| ==> run[i].posted[k] != run[i].posted[l]
    ensures forall id :: id in run[i].posted && Some(id) != run[i].initialization ==> Ready(run[i])
  {
    hide Run, Step;
    RunInvariant(run, i);
  }

  // ----- the client object -----

  class BrowserCompilerClient {
    var pending: map<Id, Guard>
    var initialization: Option<Id>
    var terminalError: Option<Error>
    var listening: bool
    ghost var waiting: map<Id, Guard>
    ghost var issued: map<Id, Guard>
    var outcomes: map<Id, Outcome>
    var posted: seq<Id>

    ghost function View(): State
      reads this
    {
      State(pending, initialization, terminalError, listening, waiting, issued, outcomes, posted)
    }

    constructor ()
      ensures View() == Start()
    {
      pending, initialization, terminalError, listening := map[], None, None, true;
      waiting, issued, outcomes, posted := map[], map[], map[], [];
    }

    /** Rejects the pending promises one by one. */
    method RejectPending(error: Error)
      modifies `outcomes
      ensures outcomes == old(outcomes) + map id | id in pending :: Rejected(error)
    {
      var todo := pending.Keys;
      while todo != {}
        invariant todo <= pending.Keys && outcomes.Keys == old(outcomes).Keys + (pending.Keys - todo)
        invariant forall id :: id in pending.Keys - todo ==> outcomes[id] == Rejected(error)
        invariant forall id :: id in old(outcomes) && id !in pending.Keys - todo ==> outcomes[id] == old(outcomes)[id]
        decreases |todo|
      {
        var id :| id in todo;
        outcomes := outcomes[id := Rejected(error)];
        todo := todo - {id};
      }
      assert outcomes == old(outcomes) + map id | id in pending :: Rejected(error);
    }

    method TransitionToTerminal(error: Error)
      modifies this
      ensures View() == ToTerminal(old(View()), error)
    {
      if terminalError.Some? { return; }
      terminalError := Some(error);
      listening := false;
      RejectPending(error);
      pending := map[];
    }

    method Message(m: Message)
      modifies this
      ensures View() == OnMessage(old(View()), m)
    {
      hide ToTerminal;
      if !listening { return; }
      match m {
        case Malformed =>
          TransitionToTerminal(Error(FAILED, "Compiler worker returned an invalid response"));
        case Success(id, result) =>
          if id !in pending { return; }
          if !pending[id].accepts(result) {
            TransitionToTerminal(Error(FAILED, "Compiler worker returned an invalid result"));
            return;
          }
          pending := pending - {id};
          outcomes := outcomes[id := Resolved(result)];
        case Failure(id, error) =>
          if id !in pending { return; }
          pending := pending - {id};
          outcomes := outcomes[id := Rejected(error)];
      }
    }

    method WorkerError()
      modifies this
      ensures View() == OnError(old(View()))
    {
      if listening { TransitionToTerminal(Error(FAILED, "Compiler worker failed")); }
    }

    method DisposeClient()
      modifies this
      ensures View() == Dispose(old(View()))
    {
      TransitionToTerminal(Error(FAILED, "Compiler client has been disposed"));
    }

    method MakeRequest(id: Id, guard: Guard)
      modifies this
      ensures View() == Request(old(View()), id, guard)
    {
      issued := issued[id := guard];
      match terminalError {
        case Some(error) =>
          outcomes := outcomes[id := Rejected(error)];
        case None =>
          pending := pending[id := guard];
          posted := posted + [id];
      }
    }

    method EnsureInitialized(id: Id)
      modifies this
      ensures View() == Initialize(old(View()), id)
    {
      if initialization.None? {
        MakeRequest(id, IsNull());
        initialization := Some(id);
      }
    }

    /** A call up to the point where it waits for initialisation. */
    method BeginCall(initId: Id, id: Id, guard: Guard)
      modifies this
      ensures View() == Call(old(View()), initId, id, guard)
    {
      hide Request;
      EnsureInitialized(initId);
      waiting := waiting[id := guard];
      issued := issued[id := guard];
    }

    /** The rest of the call, once initialisation has settled. */
    method ResumeCall(id: Id, guard: Guard)
      requires id in waiting && waiting[id] == guard && initialization.Some? && initialization.value in outcomes
      modifies this
      ensures View() == Proceed(old(View()), id)
    {
      hide Request;
      waiting := waiting - {id};
      match outcomes[initialization.value] {
        case Resolved(_) => MakeRequest(id, guard);
        case Rejected(error) => outcomes := outcomes[id := Rejected(error)];
      }
    }
  }

  // ----- what gets done -----

  /** A client that no longer listens ignores everything, and one that does ignores messages about no pending
      request. */
  lemma IgnoredMessages(s: State, id: Id, result: Json.Value, error: Error)
    ensures !s.listening ==>
      OnMessage(s, Success(id, result)) == s && OnMessage(s, Failure(id, error)) == s &&
      OnMessage(s, Message.Malformed) == s && OnError(s) == s
    ensures id !in s.pending ==>
      OnMessage(s, Success(id, result)) == s && OnMessage(s, Failure(id, error)) == s
  {
  }

  /** While the client listens, an answer its guard accepts resolves its request and an error rejects it. */
  lemma AnswersArrive(s: State, id: Id, result: Json.Value, error: Error)
    requires s.listening && id in s.pending
    ensures s.pending[id].accepts(result) ==>
      OnMessage(s, Success(id, result)) ==
        s.(outcomes := s.outcomes[id := Resolved(result)], pending := s.pending - {id})
    ensures OnMessage(s, Failure(id, error)) ==
      s.(outcomes := s.outcomes[id := Rejected(error)], pending := s.pending - {id})
  {
  }

  /** While it listens, an answer the guard refuses, a malformed message and an error of the worker end it. */
  lemma FailuresEnd(s: State, id: Id, result: Json.Value)
    requires s.listening && s.terminal.None?
    ensures id in s.pending && !s.pending[id].accepts(result) ==>
      Ended(s, OnMessage(s, Success(id, result)), "Compiler worker returned an invalid result")
    ensures Ended(s, OnMessage(s, Message.Malformed), "Compiler worker returned an invalid response")
    ensures Ended(s, OnError(s), "Compiler worker failed")
  {
    hide ToTerminal;
    TerminalEnds(s, "Compiler worker returned an invalid result");
    TerminalEnds(s, "Compiler worker returned an invalid response");
    TerminalEnds(s, "Compiler worker failed");
  }

  lemma TerminalEnds(s: State, message: string)
    requires s.terminal.None?
    ensures Ended(s, ToTerminal(s, Error(FAILED, message)), message)
  {
  }

  /** The client is terminal with this message, and everything pending is rejected with it. */
  ghost predicate Ended(s: State, t: State, message: string) {
    && t.terminal == Some(Error("COMPILER_FAILED", message)) && !t.listening && t.pending == map[]
    && forall id :: id in s.pending ==> id in t.outcomes && t.outcomes[id] == Rejected(t.terminal.value)
  }

  /** The first call initialises, goes on once the worker has answered null, and is resolved with the answer. */
  lemma FirstCallIsAnswered(initId: Id, id: Id, guard: Guard, result: Json.Value)
    requires initId != id && guard.accepts(result)
    ensures var called := Call(Start(), initId, id, guard);
      var ready := OnMessage(called, Success(initId, Json.Null));
      Step(Start(), called) && called.posted == [initId] && Step(called, ready) && CanProceed(ready, id) &&
      var sent := Proceed(ready, id);
      var answered := OnMessage(sent, Success(id, result));
      Step(ready, sent) && sent.posted == [initId, id] && Step(sent, answered) &&
      id in answered.outcomes && answered.outcomes[id] == Resolved(result) && answered.terminal.None?
  {
    var called := Call(Start(), initId, id, guard);
    assert TwoFresh(Start(), initId, id);
    var ready := OnMessage(called, Success(initId, Json.Null));
    assert called.pending[initId].accepts(Json.Null);
    var sent := Proceed(ready, id);
    assert [] + [initId] == [initId] && [initId] + [id] == [initId, id];
    assert sent.pending[id] == guard;
  }

  /** The worker must answer the initialisation with null; any other answer ends the client. */
  lemma InitialisationAnswersNull(id: Id, result: Json.Value)
    requires result != Json.Null
    ensures var asked := Initialize(Start(), id);
      asked.posted == [id] &&
      Ended(asked, OnMessage(asked, Success(id, result)), "Compiler worker returned an invalid result")
  {
    assert [] + [id] == [id];
  }
}
