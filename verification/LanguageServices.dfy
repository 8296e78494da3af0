/** The two ends of workspace synchronisation: the compiler's workspace state
    (cli/src/modelable/browser/api.py) and the playground's controller
    (web/src/language/BrowserLanguageServiceController.ts). */
module LanguageServices {
  import opened Text
  import opened Ordering

  datatype Source = Source(uri: string, text: string, version: int)

  /** Content hashes by URI; SHA-256 is taken as injective, so the text stands for its hash. */
  type Hashes = map<string, string>

  function HashesOf(sources: seq<Source>): Hashes {
    if sources == [] then map[]
    else HashesOf(sources[..|sources| - 1])[sources[|sources| - 1].uri := sources[|sources| - 1].text]
  }

  // ----- the compiler -----

  datatype Fault = InvalidRequest | StaleWorkspace | CompilerFailed

  datatype WorkspaceResult = WorkspaceResult(revision: int, hashes: Hashes)

  /** `documents` are the current sources' hashes, `last` the last successful synchronisation. */
  datatype Compiler = Compiler(
    revision: int, documents: Hashes, fingerprint: Option<string>, last: Option<WorkspaceResult>)

  const FRESH_COMPILER := Compiler(0, map[], None, None)

  predicate ValidSources(sources: seq<Source>) {
    && sources != []
    && (forall i, j :: 0 <= i < j < |sources| ==> sources[i].uri != sources[j].uri)
    && (forall i :: 0 <= i < |sources| ==> sources[i].version > 0)
  }

  /** Where opening a newer revision raises, if it does: while the new sources are synchronised, the
      revision already taken over, or later, while facets are loaded and the result is made, with the
      facet fingerprint taken over as well. */
  datatype Crash = NoCrash | Synchronizing | LoadingFacets

  /** Accepts newer revisions only; the current one may be re-opened with unchanged content. */
  function Open(c: Compiler, revision: int, sources: seq<Source>, fingerprint: Option<string>, crash: Crash):
    (Compiler, Result<WorkspaceResult, Fault>)
  {
    if !ValidSources(sources) then (c, Err(InvalidRequest))
    else if revision < c.revision then (c, Err(StaleWorkspace))
    else if revision == c.revision then
      if HashesOf(sources) != c.documents || fingerprint != c.fingerprint || c.last.None? then (c, Err(StaleWorkspace))
      else (c, Ok(c.last.value))
    else if crash == Synchronizing then (c.(revision := revision, documents := HashesOf(sources)), Err(CompilerFailed))
    else if crash == LoadingFacets then
      (c.(revision := revision, documents := HashesOf(sources), fingerprint := fingerprint), Err(CompilerFailed))
    else
      var result := WorkspaceResult(revision, HashesOf(sources));
      (Compiler(revision, HashesOf(sources), fingerprint, Some(result)), Ok(result))
  }

  /** An answer is computed on the compiler's current documents. */
  datatype Answer = Answer(revision: int, hashes: Hashes)

  /** A language query runs only at the revision it names; `available` is every other precondition. */
  function Query(c: Compiler, revision: int, available: bool): Result<Answer, Fault> {
    if revision != c.revision then Err(StaleWorkspace)
    else if !available then Err(InvalidRequest)
    else Ok(Answer(c.revision, c.documents))
  }

  class BrowserCompiler {
    var revision: int
    var documents: Hashes
    var facetFingerprint: Option<string>
    var lastWorkspaceResult: Option<WorkspaceResult>

    ghost function View(): Compiler
      reads this
    {
      Compiler(revision, documents, facetFingerprint, lastWorkspaceResult)
    }

    constructor ()
      ensures View() == FRESH_COMPILER
    {
      revision, documents, facetFingerprint, lastWorkspaceResult := 0, map[], None, None;
    }

    method OpenWorkspace(workspaceRevision: int, sources: seq<Source>, fingerprint: Option<string>, crash: Crash)
      returns (r: Result<WorkspaceResult, Fault>)
      modifies this
      ensures (View(), r) == Open(old(View()), workspaceRevision, sources, fingerprint, crash)
    {
      if !ValidSources(sources) {
        return Err(InvalidRequest);
      }
      if workspaceRevision < revision {
        return Err(StaleWorkspace);
      }
      if workspaceRevision == revision {
        r := ReopenCurrentWorkspace(sources, fingerprint);
        return;
      }
      revision := workspaceRevision;
      documents := HashesOf(sources);
      if crash == Synchronizing {
        return Err(CompilerFailed);
      }
      facetFingerprint := fingerprint;
      if crash == LoadingFacets {
        return Err(CompilerFailed);
      }
      var result := WorkspaceResult(workspaceRevision, documents);
      lastWorkspaceResult := Some(result);
      r := Ok(result);
    }

    method ReopenCurrentWorkspace(sources: seq<Source>, fingerprint: Option<string>)
      returns (r: Result<WorkspaceResult, Fault>)
      ensures r == if HashesOf(sources) != documents || fingerprint != facetFingerprint || lastWorkspaceResult.None?
                   then Err(StaleWorkspace) else Ok(lastWorkspaceResult.value)
    {
      if HashesOf(sources) != documents || fingerprint != facetFingerprint {
        return Err(StaleWorkspace);
      }
      match lastWorkspaceResult {
        case None => r := Err(StaleWorkspace);
        case Some(result) => r := Ok(result);
      }
    }
  }

  // ----- the controller -----

  datatype Workspace = Workspace(revision: int, sources: seq<Source>)

  /** `inFlight` names the outstanding call of `openWorkspace`; the timer remembers its revision. */
  datatype Controller = Controller(
    observed: Option<Workspace>, accepted: int, inFlight: Option<nat>, timer: Option<int>,
    failed: bool, disposed: bool)

  const FRESH_CONTROLLER := Controller(None, 0, None, None, false, false)

  predicate Observes(c: Controller, revision: int) { c.observed.Some? && c.observed.value.revision == revision }

  function Observe(c: Controller, w: Workspace): Controller {
    if c.disposed then c else c.(observed := Some(w), timer := Some(w.revision))
  }

  function EnterSynchronize(c: Controller, revision: int): Controller {
    if !c.disposed && Observes(c, revision) then c.(timer := None) else c
  }

  /** What one turn of the loop in `synchronize` does next. */
  datatype Turn = Return | Await(call: nat) | Start(workspace: Workspace)

  function LoopTurn(c: Controller, revision: int): Turn {
    if c.disposed || !Observes(c, revision) || c.accepted == revision then Return
    else if c.inFlight.Some? then Await(c.inFlight.value)
    else Start(c.observed.value)
  }

  datatype Notice = Nothing | Diagnostics(result: WorkspaceResult) | Failure

  /** The continuation of `openWorkspace` for a call that opened `w`. */
  function SettleOpen(c: Controller, w: Workspace, reply: Result<WorkspaceResult, Fault>): (Controller, Notice) {
    match reply
    case Ok(result) =>
      if c.disposed || result.revision != w.revision then (c, Nothing)
      else
        (c.(accepted := result.revision, failed := false),
         if Observes(c, result.revision) then Diagnostics(result) else Nothing)
    case Err(fault) =>
      if c.disposed || !Observes(c, w.revision) || fault == StaleWorkspace then (c, Nothing)
      else (c.(failed := true), Failure)
  }

  function ReleaseFlight(c: Controller, call: nat): Controller {
    if c.inFlight == Some(call) then c.(inFlight := None) else c
  }

  /** The check after the await in `ensureRevision`, on which a request is sent. */
  predicate ReadyFor(c: Controller, revision: int) { !c.disposed && Observes(c, revision) && c.accepted == revision }

  /** The check before an answer is handed to the editor. */
  predicate Delivers(c: Controller, revision: int) { !c.disposed && Observes(c, revision) }

  function DisposeOf(c: Controller): Controller {
    if c.disposed then c else c.(disposed := true, timer := None)
  }

  class LanguageController {
    var observed: Option<Workspace>
    var acceptedRevision: int
    var inFlight: Option<nat>
    var timer: Option<int>
    var failed: bool
    var disposed: bool

    ghost function View(): Controller
      reads this
    {
      Controller(observed, acceptedRevision, inFlight, timer, failed, disposed)
    }

    constructor ()
      ensures View() == FRESH_CONTROLLER
    {
      observed, acceptedRevision, inFlight, timer, failed, disposed := None, 0, None, None, false, false;
    }

    method ObserveWorkspace(w: Workspace)
      modifies this
      ensures View() == Observe(old(View()), w)
    {
      if disposed {
        return;
      }
      observed := Some(w);
      timer := Some(w.revision);
    }

    /** From entry, or from a resumed await, to the next await or the return. `call` names the call
        of `openWorkspace` that is made if the turn starts one. */
    method Synchronize(revision: int, entering: bool, call: nat) returns (turn: Turn)
      modifies this
      ensures var c := if entering then EnterSynchronize(old(View()), revision) else old(View());
        turn == LoopTurn(c, revision) && View() == if turn.Start? then c.(inFlight := Some(call)) else c
    {
      if entering && !disposed && observed.Some? && observed.value.revision == revision {
        timer := None;
      }
      if disposed || observed.None? || observed.value.revision != revision || acceptedRevision == revision {
        return Return;
      }
      if inFlight.Some? {
        return Await(inFlight.value);
      }
      turn := Start(observed.value);
      inFlight := Some(call);
    }

    method OpenSettled(w: Workspace, reply: Result<WorkspaceResult, Fault>) returns (notice: Notice)
      modifies this
      ensures (View(), notice) == SettleOpen(old(View()), w, reply)
    {
      notice := Nothing;
      match reply {
        case Ok(result) =>
          if disposed || result.revision != w.revision {
            return;
          }
          acceptedRevision := result.revision;
          failed := false;
          if observed.Some? && observed.value.revision == result.revision {
            notice := Diagnostics(result);
          }
        case Err(fault) =>
          if disposed || observed.None? || observed.value.revision != w.revision || fault == StaleWorkspace {
            return;
          }
          failed := true;
          notice := Failure;
      }
    }

    method FlightFinished(call: nat)
      modifies this
      ensures View() == ReleaseFlight(old(View()), call)
    {
      if inFlight == Some(call) {
        inFlight := None;
      }
    }

    method Dispose()
      modifies this
      ensures View() == DisposeOf(old(View()))
    {
      if disposed {
        return;
      }
      disposed := true;
      timer := None;
    }
  }

  // ----- after a failure while opening -----

  /** Opening the same revision again after a failure never changes the compiler: the reply is the old
      result exactly when the content is the same and so is the facet fingerprint, which only a late
      failure takes over, and the controller ignores either reply. */
  lemma FailedOpenIsNotRetried(
    c: Compiler, w: Workspace, fingerprint: Option<string>, crash: Crash,
    again: seq<Source>, fingerprint': Option<string>, crash': Crash, k: Controller)
    requires ValidSources(w.sources) && w.revision > c.revision && crash != NoCrash && ValidSources(again)
    requires c.last.Some? ==> c.last.value.revision <= c.revision
    ensures Open(c, w.revision, w.sources, fingerprint, crash).1 == Err(CompilerFailed)
    ensures var failed := Open(c, w.revision, w.sources, fingerprint, crash).0;
      var (c', reply) := Open(failed, w.revision, again, fingerprint', crash');
      && c' == failed && SettleOpen(k, w, reply) == (k, Nothing)
      && (reply.Ok? <==>
            c.last.Some? && HashesOf(again) == HashesOf(w.sources) &&
            fingerprint' == if crash == LoadingFacets then fingerprint else c.fingerprint)
      && (reply.Ok? ==> reply.value == c.last.value)
  {
    hide HashesOf, ValidSources;
  }

  /** The compiler after an attempt to open `w`, if the request reached it. */
  function Attempted(c: Compiler, w: Workspace, fingerprint: Option<string>, attempt: Option<Crash>): Compiler {
    match attempt
    case None => c
    case Some(crash) => Open(c, w.revision, w.sources, fingerprint, crash).0
  }

  /** Asking again for a newer revision gets it accepted exactly when the first attempt never reached
      the compiler or succeeded there. */
  lemma RetryHelpsExactly(
    c: Compiler, w: Workspace, fingerprint: Option<string>, attempt: Option<Crash>, k: Controller)
    requires ValidSources(w.sources) && w.revision > c.revision && !k.disposed && k.accepted < w.revision
    requires c.last.Some? ==> c.last.value.revision <= c.revision
    ensures var again := Open(Attempted(c, w, fingerprint, attempt), w.revision, w.sources, fingerprint, NoCrash).1;
      SettleOpen(k, w, again).0.accepted == w.revision <==> attempt == None || attempt == Some(NoCrash)
  {
    hide HashesOf, ValidSources;
    if attempt.Some? && attempt.value != NoCrash {
      FailedOpenIsNotRetried(c, w, fingerprint, attempt.value, w.sources, fingerprint, NoCrash, k);
    }
  }

  /** A fresh compiler that fails in its first open refuses the same workspace as stale. */
  lemma FirstOpenIsNotRetried()
    ensures var sources := [Source("file:///main.mdl", "", 1)];
      var failed := Open(FRESH_COMPILER, 1, sources, None, Synchronizing).0;
      ValidSources(sources) && Open(failed, 1, sources, None, NoCrash) == (failed, Err(StaleWorkspace))
  {
    hide HashesOf;
  }

  // ----- what is refused, answered and accepted -----

  function Uris(sources: seq<Source>): (r: seq<string>)
    ensures |r| == |sources| && forall i :: 0 <= i < |r| ==> r[i] == sources[i].uri
  {
    seq(|sources|, i requires 0 <= i < |sources| => sources[i].uri)
  }

  /** Nothing to open, a URI given twice, or a version that is not positive. */
  ghost predicate Malformed(sources: seq<Source>) {
    sources == [] || |set u | u in Uris(sources)| < |sources| || exists s :: s in sources && s.version <= 0
  }

  lemma MalformedExactly(sources: seq<Source>)
    ensures Malformed(sources) <==> !ValidSources(sources)
  {
    DistinctCount(Uris(sources));
    assert NoDuplicates(Uris(sources)) <==>
      forall i, j :: 0 <= i < j < |sources| ==> sources[i].uri != sources[j].uri by {
      if NoDuplicates(Uris(sources)) {
        forall i, j | 0 <= i < j < |sources| ensures sources[i].uri != sources[j].uri {
          assert Uris(sources)[i] != Uris(sources)[j];
        }
      }
    }
    if s :| s in sources && s.version <= 0 { var i :| 0 <= i < |sources| && sources[i] == s; }
  }

  /** The hashes of sources with distinct URIs pair each URI with its text. */
  lemma {:induction false} HashesMean(sources: seq<Source>, uri: string, text: string)
    ensures uri in HashesOf(sources) <==> uri in Uris(sources)
    ensures NoDuplicates(Uris(sources)) ==>
      (uri in HashesOf(sources) && HashesOf(sources)[uri] == text <==>
         exists s :: s in sources && s.uri == uri && s.text == text)
  {
    if sources != [] {
      var n := |sources| - 1;
      HashesMean(sources[..n], uri, text);
      assert Uris(sources) == Uris(sources[..n]) + [sources[n].uri];
      assert Uris(sources)[..n] == Uris(sources[..n]);
      assert sources == sources[..n] + [sources[n]];
      if NoDuplicates(Uris(sources)) {
        assert NoDuplicates(Uris(sources[..n]));
        assert forall s :: s in sources[..n] && s.uri == sources[n].uri ==> s.uri in Uris(sources[..n]);
      }
    }
  }

  /** The compiler refuses malformed sources, then stale revisions, fails only where it raises, and
      otherwise answers at the revision asked for. */
  lemma OpenRepliesExactly(c: Compiler, revision: int, sources: seq<Source>, fingerprint: Option<string>, crash: Crash)
    ensures var reply := Open(c, revision, sources, fingerprint, crash).1;
      var same := revision == c.revision && c.last.Some? && HashesOf(sources) == c.documents &&
        fingerprint == c.fingerprint;
      && (reply == Err(InvalidRequest) <==> Malformed(sources))
      && (reply == Err(StaleWorkspace) <==> !Malformed(sources) && revision <= c.revision && !same)
      && (reply == Err(CompilerFailed) <==> !Malformed(sources) && revision > c.revision && crash != NoCrash)
      && (reply.Ok? ==>
            reply.value == if same then c.last.value else WorkspaceResult(revision, HashesOf(sources)))
  {
    MalformedExactly(sources);
    hide ValidSources, Malformed, HashesOf;
  }

  /** Every open of a newer revision takes it and the sources over, also one that fails; any other leaves
      the compiler as it is. */
  lemma OpenTakesOverExactly(
    c: Compiler, revision: int, sources: seq<Source>, fingerprint: Option<string>, crash: Crash)
    ensures var c' := Open(c, revision, sources, fingerprint, crash).0;
      if Malformed(sources) || revision <= c.revision then c' == c
      else
        c'.revision == revision && c'.documents == HashesOf(sources) &&
        c'.fingerprint == (if crash == Synchronizing then c.fingerprint else fingerprint) &&
        c'.last == if crash == NoCrash then Some(WorkspaceResult(revision, HashesOf(sources))) else c.last
  {
    MalformedExactly(sources);
    hide ValidSources, Malformed, HashesOf;
  }

  /** A settled open is accepted exactly at its own revision, shown exactly if that is still observed, and
      reported as a failure exactly if the workspace is still observed and the error is not staleness;
      nothing else of the controller changes. */
  lemma SettlesExactly(c: Controller, w: Workspace, reply: Result<WorkspaceResult, Fault>)
    ensures var (c', notice) := SettleOpen(c, w, reply);
      var accepts := !c.disposed && reply.Ok? && reply.value.revision == w.revision;
      && c' == c.(accepted := if accepts then w.revision else c.accepted,
                  failed := !accepts && (c.failed || notice.Failure?))
      && (notice.Diagnostics? <==> accepts && c.observed.Some? && c.observed.value.revision == w.revision)
      && (notice.Diagnostics? ==> Ok(notice.result) == reply)
      && (notice.Failure? <==>
            !c.disposed && c.observed.Some? && c.observed.value.revision == w.revision &&
            reply.Err? && reply.error != StaleWorkspace)
  {
  }

  /** A turn of the loop starts an open exactly for the observed, not yet accepted revision when none is in
      flight, and waits exactly when one is. */
  lemma TurnsExactly(c: Controller, revision: int)
    ensures var wanted := !c.disposed && c.observed.Some? && c.observed.value.revision == revision &&
      c.accepted != revision;
      && (LoopTurn(c, revision).Start? <==> wanted && c.inFlight.None?)
      && (LoopTurn(c, revision).Await? <==> wanted && c.inFlight.Some?)
      && (LoopTurn(c, revision).Start? ==> c.observed == Some(LoopTurn(c, revision).workspace))
      && (LoopTurn(c, revision).Await? ==> c.inFlight == Some(LoopTurn(c, revision).call))
  {
  }

  /** Synchronising clears the timer exactly for the revision still observed, and changes nothing else. */
  lemma EnteringClearsTimerExactly(c: Controller, revision: int)
    ensures var cleared := !c.disposed && c.observed.Some? && c.observed.value.revision == revision;
      EnterSynchronize(c, revision).timer == (if cleared then None else c.timer) &&
      EnterSynchronize(c, revision).(timer := c.timer) == c
  {
  }

  /** Disposal clears the timer, and nothing observed later sets it again. */
  lemma DisposalIsFinal(c: Controller, w: Workspace)
    requires !c.disposed
    ensures DisposeOf(c).disposed && DisposeOf(c).timer.None? && Observe(DisposeOf(c), w) == DisposeOf(c)
    ensures DisposeOf(DisposeOf(c)) == DisposeOf(c)
  {
  }
}
