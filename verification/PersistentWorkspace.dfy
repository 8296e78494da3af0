/** One browser tab's persistence hook (web/src/usePersistentWorkspace.ts) and the IndexedDB
    repository it talks to (web/src/workspace-repository.ts). Each callback runs to completion
    between two `await`s; a call that is still outstanding is remembered with its result. */
module PersistentWorkspace {
  import opened Text

  datatype Workspace = Workspace(revision: int, content: string, metadata: bool)

  /** The first revision of a fresh workspace. */
  const DEFAULT_REVISION := 1

  // ----- the repository -----

  datatype Reason = InvalidRecord | Incompatible

  /** What the object store holds under the workspace's key. A record the parser rejects may
      still carry a numeric revision, which is all the save transaction looks at. */
  datatype Record = Missing | Stored(workspace: Workspace) | Unreadable(revision: Option<int>, reason: Reason)

  datatype LoadResult = NoRecord | Ready(workspace: Workspace) | RecoveryRequired(reason: Reason)

  datatype SaveResult = Saved | Stale

  function RecordRevision(r: Record): Option<int> {
    match r
    case Missing => None
    case Stored(w) => Some(w.revision)
    case Unreadable(revision, _) => revision
  }

  /** The read transaction, with the parser's verdict on a stored workspace. */
  function Read(r: Record): LoadResult {
    match r
    case Missing => NoRecord
    case Stored(w) => if w.revision > 0 && !w.metadata then Ready(w) else RecoveryRequired(InvalidRecord)
    case Unreadable(_, reason) => RecoveryRequired(reason)
  }

  function SaveVerdict(r: Record, w: Workspace): SaveResult {
    var current := RecordRevision(r);
    if current.Some? && current.value > w.revision then Stale else Saved
  }

  /** The compare-and-put transaction. */
  function Write(r: Record, w: Workspace): Record {
    if SaveVerdict(r, w) == Saved then Stored(w) else r
  }

  /** Two saves may be committed in either order exactly when they are the same, differ in revision,
      or are both too old to be stored: equal revisions overwrite each other. */
  lemma SavesCommuteExactly(r: Record, a: Workspace, b: Workspace)
    ensures Write(Write(r, a), b) == Write(Write(r, b), a) <==>
      a == b || a.revision != b.revision || SaveVerdict(r, a) == Stale
  {
  }

  /** A save is read back exactly when it was stored, or already there, and can be read at all. */
  lemma SaveIsReadBackExactly(r: Record, w: Workspace)
    ensures Read(Write(r, w)) == Ready(w) <==> SaveVerdict(r, w) == Saved && w.revision > 0 && !w.metadata
  {
  }

  /** The record after saves committed one after the other. */
  function WriteAll(r: Record, saves: seq<Workspace>): Record {
    if saves == [] then r else Write(WriteAll(r, saves[..|saves| - 1]), saves[|saves| - 1])
  }

  /** The last of the newest saves, if it is not older than the record. */
  predicate Wins(r: Record, saves: seq<Workspace>, k: nat)
    requires k < |saves|
  {
    && SaveVerdict(r, saves[k]) == Saved
    && (forall j :: 0 <= j < k ==> saves[j].revision <= saves[k].revision)
    && (forall j :: k < j < |saves| ==> saves[j].revision < saves[k].revision)
  }

  /** Whatever order saves are committed in, the last of the newest is stored, and the record is left
      alone exactly if it is newer than all of them. */
  lemma {:induction false} LastOfTheNewestWins(r: Record, saves: seq<Workspace>)
    ensures
      || (exists k: nat :: k < |saves| && Wins(r, saves, k) && WriteAll(r, saves) == Stored(saves[k]))
      || (WriteAll(r, saves) == r && forall j :: 0 <= j < |saves| ==> SaveVerdict(r, saves[j]) == Stale)
  {
    hide Wins;
    if saves != [] {
      var n := |saves| - 1;
      var before := saves[..n];
      LastOfTheNewestWins(r, before);
      if k: nat :| k < n && Wins(r, before, k) && WriteAll(r, before) == Stored(before[k]) {
        if saves[n].revision < saves[k].revision { StillWins(r, saves, k); } else { LastWins(r, saves, k); }
      } else {
        assert forall j :: 0 <= j < n ==> saves[j] == before[j];
        if SaveVerdict(r, saves[n]) == Saved { FirstWins(r, saves); }
      }
    }
  }

  lemma FirstWins(r: Record, saves: seq<Workspace>)
    requires saves != [] && SaveVerdict(r, saves[|saves| - 1]) == Saved
    requires forall j :: 0 <= j < |saves| - 1 ==> SaveVerdict(r, saves[j]) == Stale
    ensures Wins(r, saves, |saves| - 1)
  {
  }

  lemma StillWins(r: Record, saves: seq<Workspace>, k: nat)
    requires saves != [] && k < |saves| - 1 && Wins(r, saves[..|saves| - 1], k)
    requires saves[|saves| - 1].revision < saves[k].revision
    ensures Wins(r, saves, k)
  {
    var before := saves[..|saves| - 1];
    forall j | 0 <= j < |before|
      ensures j < k ==> saves[j].revision <= saves[k].revision
      ensures j > k ==> saves[j].revision < saves[k].revision
    {
      assert before[j] == saves[j];
    }
  }

  lemma LastWins(r: Record, saves: seq<Workspace>, k: nat)
    requires saves != [] && k < |saves| - 1 && Wins(r, saves[..|saves| - 1], k)
    requires saves[|saves| - 1].revision >= saves[k].revision
    ensures Wins(r, saves, |saves| - 1)
  {
    var before := saves[..|saves| - 1];
    forall j | 0 <= j < |before| ensures saves[j].revision <= saves[k].revision {
      assert before[j] == saves[j];
    }
  }

  class Repository {
    var record: Record

    method Load() returns (r: LoadResult)
      ensures r == Read(record)
    {
      match record {
        case Missing => r := NoRecord;
        case Stored(w) =>
          if w.revision > 0 && !w.metadata { r := Ready(w); } else { r := RecoveryRequired(InvalidRecord); }
        case Unreadable(_, reason) => r := RecoveryRequired(reason);
      }
    }

    /** A stored newer revision is never overwritten; anything else is. */
    method Save(w: Workspace) returns (r: SaveResult)
      modifies this
      ensures record == Write(old(record), w) && r == SaveVerdict(old(record), w)
    {
      var current := RecordRevision(record);
      if current.Some? && current.value > w.revision {
        return Stale;
      }
      record := Stored(w);
      r := Saved;
    }

    method Remove()
      modifies this
      ensures record == Missing
    {
      record := Missing;
    }
  }

  // ----- the tab -----

  datatype Phase = Restoring | PhaseSaved | Saving | MemoryOnly | RecoveryPhase

  datatype SaveOutcome = SavePending | SaveDone(result: SaveResult) | SaveFailed

  datatype SaveCall = SaveCall(snapshot: Workspace, outcome: SaveOutcome)

  datatype LoadKind = InitialLoad | RetryLoad | BroadcastLoad

  datatype LoadOutcome = LoadPending | LoadDone(result: LoadResult) | LoadFailed

  datatype LoadCall = LoadCall(kind: LoadKind, outcome: LoadOutcome)

  /** Outstanding saves are keyed by their sequence number; `posted` are the announced revisions. */
  datatype Tab = Tab(
    initial: Workspace, workspace: Workspace, dirty: bool, timer: Option<Workspace>, sequence: nat,
    mounted: bool, phase: Phase, recovery: Option<Reason>,
    saves: map<nat, SaveCall>, loads: map<nat, LoadCall>, nextLoad: nat, posted: seq<int>)

  function OpenedTab(initial: Workspace): Tab {
    Tab(initial, initial, false, None, 0, true, Restoring, None,
        map[], map[0 := LoadCall(InitialLoad, LoadPending)], 1, [])
  }

  function BeginLoad(t: Tab, kind: LoadKind): Tab {
    t.(loads := t.loads[t.nextLoad := LoadCall(kind, LoadPending)], nextLoad := t.nextLoad + 1)
  }

  function BeginSave(t: Tab, snapshot: Workspace): Tab {
    t.(sequence := t.sequence + 1, saves := t.saves[t.sequence + 1 := SaveCall(snapshot, SavePending)])
  }

  function ScheduleSave(t: Tab, snapshot: Workspace, immediate: bool): Tab {
    if immediate then BeginSave(t.(phase := Saving, timer := None), snapshot)
    else t.(phase := Saving, timer := Some(snapshot))
  }

  function TimerFires(t: Tab): Tab
    requires t.timer.Some?
  {
    BeginSave(t.(timer := None), t.timer.value)
  }

  /** The rest of `save`, once the repository has answered call `n`. */
  function SettleSave(t: Tab, n: nat): Tab
    requires n in t.saves
  {
    var call, t' := t.saves[n], t.(saves := t.saves - {n});
    var latest := t.mounted && n == t.sequence;
    if call.outcome == SaveDone(Saved) then
      if latest && t.workspace.revision == call.snapshot.revision then
        t'.(dirty := false, phase := PhaseSaved, posted := t.posted + [call.snapshot.revision])
      else t'
    else if latest then t'.(phase := MemoryOnly) else t'
  }

  function ApplyLoadResult(t: Tab, r: LoadResult): Tab {
    match r
    case Ready(w) => t.(workspace := w, dirty := false, recovery := None, phase := PhaseSaved)
    case NoRecord =>
      ScheduleSave(t.(workspace := t.initial, dirty := true, recovery := None), t.initial, true)
    case RecoveryRequired(reason) => t.(dirty := false, recovery := Some(reason), phase := RecoveryPhase)
  }

  /** The broadcast handler's continuation adopts a newer record only over a clean workspace. */
  predicate Adopts(t: Tab, r: LoadResult) {
    t.mounted && !t.dirty && r.Ready? && r.workspace.revision > t.workspace.revision
  }

  function SettleLoad(t: Tab, n: nat): Tab
    requires n in t.loads
  {
    var call, t' := t.loads[n], t.(loads := t.loads - {n});
    match call.kind
    case BroadcastLoad =>
      if call.outcome.LoadDone? && Adopts(t, call.outcome.result) then
        t'.(workspace := call.outcome.result.workspace, phase := PhaseSaved)
      else t'
    case _ =>
      if call.outcome.LoadDone? then ApplyLoadResult(t', call.outcome.result)
      else if call.kind == RetryLoad || t.mounted then t'.(phase := MemoryOnly)
      else t'
  }

  function Receive(t: Tab, revision: int): Tab {
    if revision <= t.workspace.revision then t
    else if t.dirty then t.(phase := MemoryOnly)
    else BeginLoad(t, BroadcastLoad)
  }

  function PageHides(t: Tab): Tab {
    if t.dirty then BeginSave(t, t.workspace) else t
  }

  function Replace(t: Tab, w: Workspace, immediate: bool): Tab {
    ScheduleSave(t.(workspace := w, dirty := true, recovery := None), w, immediate)
  }

  function Retry(t: Tab): Tab {
    if t.dirty then ScheduleSave(t, t.workspace, true)
    else BeginLoad(t.(phase := Restoring), RetryLoad)
  }

  function Unmount(t: Tab): Tab { t.(mounted := false, timer := None) }

  /** The hook's mutable refs and state, updated by its callbacks one assignment at a time. */
  class Hook {
    const defaultWorkspace: Workspace
    var workspaceRef: Workspace
    var dirtyRef: bool
    var timerRef: Option<Workspace>
    var saveSequenceRef: nat
    var mountedRef: bool
    var phase: Phase
    var recovery: Option<Reason>
    var saves: map<nat, SaveCall>
    var loads: map<nat, LoadCall>
    var nextLoad: nat
    var posted: seq<int>

    ghost function View(): Tab
      reads this
    {
      Tab(defaultWorkspace, workspaceRef, dirtyRef, timerRef, saveSequenceRef, mountedRef, phase, recovery,
          saves, loads, nextLoad, posted)
    }

    constructor (defaultWorkspace: Workspace)
      ensures View() == OpenedTab(defaultWorkspace)
    {
      this.defaultWorkspace := defaultWorkspace;
      workspaceRef, dirtyRef, timerRef, saveSequenceRef := defaultWorkspace, false, None, 0;
      mountedRef, phase, recovery, posted := true, Restoring, None, [];
      saves, loads, nextLoad := map[], map[0 := LoadCall(InitialLoad, LoadPending)], 1;
    }

    method StartLoad(kind: LoadKind)
      modifies this
      ensures View() == BeginLoad(old(View()), kind)
    {
      loads := loads[nextLoad := LoadCall(kind, LoadPending)];
      nextLoad := nextLoad + 1;
    }

    method Save(snapshot: Workspace)
      modifies this
      ensures View() == BeginSave(old(View()), snapshot)
    {
      var sequence := saveSequenceRef + 1;
      saveSequenceRef := sequence;
      saves := saves[sequence := SaveCall(snapshot, SavePending)];
    }

    method SaveSettled(sequence: nat)
      requires sequence in saves
      modifies this
      ensures View() == SettleSave(old(View()), sequence)
    {
      var call := saves[sequence];
      saves := saves - {sequence};
      match call.outcome {
        case SaveDone(Saved) =>
          if mountedRef && sequence == saveSequenceRef && workspaceRef.revision == call.snapshot.revision {
            dirtyRef := false;
            phase := PhaseSaved;
            posted := posted + [call.snapshot.revision];
          }
        case _ =>
          if mountedRef && sequence == saveSequenceRef {
            phase := MemoryOnly;
          }
      }
    }

    method Schedule(snapshot: Workspace, immediate: bool)
      modifies this
      ensures View() == ScheduleSave(old(View()), snapshot, immediate)
    {
      phase := Saving;
      if immediate {
        timerRef := None;
        Save(snapshot);
        return;
      }
      timerRef := Some(snapshot);
    }

    method TimerFired()
      requires timerRef.Some?
      modifies this
      ensures View() == TimerFires(old(View()))
    {
      var snapshot := timerRef.value;
      timerRef := None;
      Save(snapshot);
    }

    method ApplyLoaded(result: LoadResult)
      modifies this
      ensures View() == ApplyLoadResult(old(View()), result)
    {
      match result {
        case Ready(w) =>
          workspaceRef := w;
          dirtyRef := false;
          recovery := None;
          phase := PhaseSaved;
        case NoRecord =>
          workspaceRef := defaultWorkspace;
          dirtyRef := true;
          recovery := None;
          Schedule(defaultWorkspace, true);
        case RecoveryRequired(reason) =>
          dirtyRef := false;
          recovery := Some(reason);
          phase := RecoveryPhase;
      }
    }

    method LoadSettled(id: nat)
      requires id in loads
      modifies this
      ensures View() == SettleLoad(old(View()), id)
    {
      var call := loads[id];
      loads := loads - {id};
      if call.kind.BroadcastLoad? {
        if call.outcome.LoadDone? {
          var result := call.outcome.result;
          if mountedRef && !dirtyRef && result.Ready? && result.workspace.revision > workspaceRef.revision {
            workspaceRef := result.workspace;
            phase := PhaseSaved;
          }
        }
      } else if call.outcome.LoadDone? {
        ApplyLoaded(call.outcome.result);
      } else if call.kind.RetryLoad? || mountedRef {
        phase := MemoryOnly;
      }
    }

    method OnMessage(revision: int)
      modifies this
      ensures View() == Receive(old(View()), revision)
    {
      if revision <= workspaceRef.revision {
        return;
      }
      if dirtyRef {
        phase := MemoryOnly;
        return;
      }
      StartLoad(BroadcastLoad);
    }

    method HandlePageHide()
      modifies this
      ensures View() == PageHides(old(View()))
    {
      if dirtyRef {
        Save(workspaceRef);
      }
    }

    method ReplaceWith(next: Workspace, immediate: bool)
      modifies this
      ensures View() == Replace(old(View()), next, immediate)
    {
      workspaceRef := next;
      dirtyRef := true;
      recovery := None;
      Schedule(next, immediate);
    }

    method RetryStorage()
      modifies this
      ensures View() == Retry(old(View()))
    {
      if dirtyRef {
        Schedule(workspaceRef, true);
        return;
      }
      phase := Restoring;
      StartLoad(RetryLoad);
    }

    method Dismount()
      modifies this
      ensures View() == Unmount(old(View()))
    {
      mountedRef := false;
      timerRef := None;
    }
  }
}
