/** Any number of tabs over one store, under every interleaving of their callbacks, of the
    repository's transactions and of broadcast messages. Removing the record is not a step here. */
module PersistenceProtocol {
  import opened Text
  import opened PersistentWorkspace

  type TabId = nat

  datatype System = System(record: Record, tabs: map<TabId, Tab>)

  datatype Step =
    | Edit(tab: TabId, workspace: Workspace, immediate: bool)
    | RetryStep(tab: TabId)
    | PageHide(tab: TabId)
    | TimerStep(tab: TabId)
    | CommitSave(tab: TabId, call: nat)
    | AbortSave(tab: TabId, call: nat)
    | SaveSettles(tab: TabId, call: nat)
    | RunLoad(tab: TabId, call: nat)
    | AbortLoad(tab: TabId, call: nat)
    | LoadSettles(tab: TabId, call: nat)
    | Deliver(tab: TabId, from: TabId, revision: int)
    | Close(tab: TabId)

  /** A transaction runs once; a continuation runs after it; a message reaches other tabs only. */
  predicate Enabled(s: System, step: Step) {
    step.tab in s.tabs &&
    var t := s.tabs[step.tab];
    match step
    case TimerStep(_) => t.timer.Some?
    case CommitSave(_, n) => n in t.saves && t.saves[n].outcome.SavePending?
    case AbortSave(_, n) => n in t.saves && t.saves[n].outcome.SavePending?
    case SaveSettles(_, n) => n in t.saves && !t.saves[n].outcome.SavePending?
    case RunLoad(_, n) => n in t.loads && t.loads[n].outcome.LoadPending?
    case AbortLoad(_, n) => n in t.loads && t.loads[n].outcome.LoadPending?
    case LoadSettles(_, n) => n in t.loads && !t.loads[n].outcome.LoadPending?
    case Deliver(_, from, revision) =>
      t.mounted && from != step.tab && from in s.tabs && revision in s.tabs[from].posted
    case _ => t.mounted
  }

  function Answered(t: Tab, n: nat, outcome: SaveOutcome): Tab
    requires n in t.saves
  {
    t.(saves := t.saves[n := t.saves[n].(outcome := outcome)])
  }

  function Loaded(t: Tab, n: nat, outcome: LoadOutcome): Tab
    requires n in t.loads
  {
    t.(loads := t.loads[n := t.loads[n].(outcome := outcome)])
  }

  function TabAfter(s: System, step: Step): Tab
    requires Enabled(s, step)
  {
    var t := s.tabs[step.tab];
    match step
    case Edit(_, w, immediate) => Replace(t, w, immediate)
    case RetryStep(_) => Retry(t)
    case PageHide(_) => PageHides(t)
    case TimerStep(_) => TimerFires(t)
    case CommitSave(_, n) => Answered(t, n, SaveDone(SaveVerdict(s.record, t.saves[n].snapshot)))
    case AbortSave(_, n) => Answered(t, n, SaveFailed)
    case SaveSettles(_, n) => SettleSave(t, n)
    case RunLoad(_, n) => Loaded(t, n, LoadDone(Read(s.record)))
    case AbortLoad(_, n) => Loaded(t, n, LoadFailed)
    case LoadSettles(_, n) => SettleLoad(t, n)
    case Deliver(_, _, revision) => Receive(t, revision)
    case Close(_) => Unmount(t)
  }

  function RecordAfter(s: System, step: Step): Record
    requires Enabled(s, step)
  {
    if step.CommitSave? then Write(s.record, s.tabs[step.tab].saves[step.call].snapshot) else s.record
  }

  function After(s: System, step: Step): System
    requires Enabled(s, step)
  {
    System(RecordAfter(s, step), s.tabs[step.tab := TabAfter(s, step)])
  }

  ghost predicate Possible(s: System, steps: seq<Step>)
    decreases |steps|
  {
    steps == [] || (Enabled(s, steps[0]) && Possible(After(s, steps[0]), steps[1..]))
  }

  ghost function Outcome(s: System, steps: seq<Step>): System
    requires Possible(s, steps)
    decreases |steps|
  {
    if steps == [] then s else Outcome(After(s, steps[0]), steps[1..])
  }

  /** Tabs just opened over any record, all on the same default workspace. */
  ghost predicate Start(s: System, initial: Workspace) {
    initial.revision == DEFAULT_REVISION &&
    forall i :: i in s.tabs ==> s.tabs[i] == OpenedTab(initial)
  }

  /** A record at least as new as `revision`. */
  predicate AtLeast(r: Record, revision: int) {
    RecordRevision(r).Some? && RecordRevision(r).value >= revision
  }

  // ----- what holds of every run -----

  /** What outstanding answers and the phase say about the record. */
  ghost predicate Honest(r: Record, t: Tab) {
    && (forall n :: n in t.saves && t.saves[n].outcome == SaveDone(Saved) ==> AtLeast(r, t.saves[n].snapshot.revision))
    && (forall n :: n in t.loads && t.loads[n].outcome.LoadDone? && t.loads[n].outcome.result.Ready? ==>
          AtLeast(r, t.loads[n].outcome.result.workspace.revision))
    && (t.phase == PhaseSaved ==> AtLeast(r, t.workspace.revision))
  }

  ghost predicate AllHonest(s: System) {
    forall i :: i in s.tabs ==> Honest(s.record, s.tabs[i])
  }

  /** The stored revision never decreases, whatever step is taken. */
  ghost predicate NotOlder(r: Record, r': Record) {
    forall revision :: AtLeast(r, revision) ==> AtLeast(r', revision)
  }

  lemma RecordNeverGoesBack(s: System, step: Step)
    requires Enabled(s, step)
    ensures NotOlder(s.record, After(s, step).record)
  {
  }

  lemma HonestAnswered(r: Record, r': Record, t: Tab, n: nat, outcome: SaveOutcome)
    requires Honest(r, t) && n in t.saves && NotOlder(r, r')
    requires outcome == SaveDone(Saved) ==> AtLeast(r', t.saves[n].snapshot.revision)
    ensures Honest(r', Answered(t, n, outcome))
  {
  }

  lemma HonestLoaded(r: Record, t: Tab, n: nat, outcome: LoadOutcome)
    requires Honest(r, t) && n in t.loads
    requires outcome.LoadDone? ==> outcome.result == Read(r)
    ensures Honest(r, Loaded(t, n, outcome))
  {
  }

  lemma HonestBeginSave(r: Record, t: Tab, w: Workspace)
    requires Honest(r, t)
    ensures Honest(r, BeginSave(t, w))
  {
  }

  lemma HonestSettleSave(r: Record, t: Tab, n: nat)
    requires Honest(r, t) && n in t.saves
    ensures Honest(r, SettleSave(t, n))
  {
  }

  lemma HonestSettleLoad(r: Record, t: Tab, n: nat)
    requires Honest(r, t) && n in t.loads
    ensures Honest(r, SettleLoad(t, n))
  {
    var call, t' := t.loads[n], t.(loads := t.loads - {n});
    if call.outcome == LoadDone(NoRecord) && call.kind != BroadcastLoad {
      var t'' := t'.(workspace := t.initial, dirty := true, recovery := None, phase := Saving, timer := None);
      HonestBeginSave(r, t'', t.initial);
    }
  }

  lemma HonestOwnStep(s: System, step: Step)
    requires Enabled(s, step) && Honest(s.record, s.tabs[step.tab])
    ensures Honest(RecordAfter(s, step), TabAfter(s, step))
  {
    RecordNeverGoesBack(s, step);
    var r, r', t := s.record, RecordAfter(s, step), s.tabs[step.tab];
    match step
    case CommitSave(_, n) => HonestAnswered(r, r', t, n, SaveDone(SaveVerdict(r, t.saves[n].snapshot)));
    case AbortSave(_, n) => HonestAnswered(r, r', t, n, SaveFailed);
    case SaveSettles(_, n) => HonestSettleSave(r, t, n);
    case RunLoad(_, n) => HonestLoaded(r, t, n, LoadDone(Read(r)));
    case AbortLoad(_, n) => HonestLoaded(r, t, n, LoadFailed);
    case LoadSettles(_, n) => HonestSettleLoad(r, t, n);
    case TimerStep(_) => HonestBeginSave(r, t.(timer := None), t.timer.value);
    case PageHide(_) => HonestBeginSave(r, t, t.workspace);
    case _ =>
  }

  lemma HonestKept(s: System, step: Step)
    requires AllHonest(s) && Enabled(s, step)
    ensures AllHonest(After(s, step))
  {
    var s' := After(s, step);
    RecordNeverGoesBack(s, step);
    forall i | i in s'.tabs ensures Honest(s'.record, s'.tabs[i]) {
      if i == step.tab { HonestOwnStep(s, step); } else { assert Honest(s.record, s.tabs[i]); }
    }
  }

  /** Any number of tabs, any interleaving, retries and overtaking loads included: a tab that
      shows "saved" is never ahead of the store, and the store never goes back. */
  lemma {:induction false} SavedNeverAheadOfStore(s: System, steps: seq<Step>)
    requires AllHonest(s) && Possible(s, steps)
    ensures AllHonest(Outcome(s, steps)) && NotOlder(s.record, Outcome(s, steps).record)
    decreases |steps|
  {
    if steps != [] {
      HonestKept(s, steps[0]);
      RecordNeverGoesBack(s, steps[0]);
      SavedNeverAheadOfStore(After(s, steps[0]), steps[1..]);
    }
  }

  lemma StartIsHonest(s: System, initial: Workspace)
    requires Start(s, initial)
    ensures AllHonest(s)
  {
  }

  // ----- when a load can overwrite an edit -----

  /** The initial load and a retry install whatever they read. */
  predicate Restores(call: LoadCall) { call.kind != BroadcastLoad }

  ghost predicate RestoreOutstanding(t: Tab) {
    exists n :: n in t.loads && Restores(t.loads[n])
  }

  predicate Overwrites(t: Tab, step: Step) {
    step.LoadSettles? && step.call in t.loads && Restores(t.loads[step.call]) &&
    match t.loads[step.call].outcome
    case LoadDone(Ready(w)) => w != t.workspace
    case LoadDone(NoRecord) => t.initial != t.workspace
    case _ => false
  }

  /** Apart from the user's own edits, unsaved work is replaced exactly by a restoring load that
      settles over it; no load triggered by a broadcast ever does. */
  lemma EditLostExactlyWhen(s: System, step: Step)
    requires Enabled(s, step) && !step.Edit? && s.tabs[step.tab].dirty
    ensures TabAfter(s, step).workspace != s.tabs[step.tab].workspace <==> Overwrites(s.tabs[step.tab], step)
  {
  }

  // ----- exactly when a revision goes back and unsaved work is dropped -----

  /** The step lowers the tab's revision: an edit to a lower one, or a restoring load that brings a
      lower one, from the store or by falling back to the default. */
  predicate TakesBack(t: Tab, step: Step) {
    match step
    case Edit(_, w, _) => w.revision < t.workspace.revision
    case LoadSettles(_, n) =>
      n in t.loads && Restores(t.loads[n]) &&
      (match t.loads[n].outcome
       case LoadDone(Ready(w)) => w.revision < t.workspace.revision
       case LoadDone(NoRecord) => t.initial.revision < t.workspace.revision
       case _ => false)
    case _ => false
  }

  /** Whatever the system's state, a tab's revision falls in a step exactly when the step takes it
      back; broadcasts, saves and retries never do. */
  lemma RevisionFallsExactlyWhen(s: System, step: Step, tab: TabId)
    requires Enabled(s, step) && tab in s.tabs
    ensures After(s, step).tabs[tab].workspace.revision < s.tabs[tab].workspace.revision <==>
      tab == step.tab && TakesBack(s.tabs[tab], step)
  {
  }

  ghost predicate NothingTakesBack(s: System, steps: seq<Step>, tab: TabId)
    requires Possible(s, steps) && tab in s.tabs
    decreases |steps|
  {
    steps == [] ||
    (!(tab == steps[0].tab && TakesBack(s.tabs[tab], steps[0])) &&
     NothingTakesBack(After(s, steps[0]), steps[1..], tab))
  }

  /** The tab's revision never decreases along the run. */
  ghost predicate NeverGoesBack(s: System, steps: seq<Step>, tab: TabId)
    requires Possible(s, steps) && tab in s.tabs
    decreases |steps|
  {
    steps == [] ||
    (After(s, steps[0]).tabs[tab].workspace.revision >= s.tabs[tab].workspace.revision &&
     NeverGoesBack(After(s, steps[0]), steps[1..], tab))
  }

  /** Over every possible run, calm or not, a tab's revision never decreases exactly when no step of
      the run takes it back. */
  lemma {:induction false} NeverGoesBackExactly(s: System, steps: seq<Step>, tab: TabId)
    requires Possible(s, steps) && tab in s.tabs
    ensures NeverGoesBack(s, steps, tab) <==> NothingTakesBack(s, steps, tab)
    decreases |steps|
  {
    if steps != [] {
      RevisionFallsExactlyWhen(s, steps[0], tab);
      hide TabAfter, TakesBack, Enabled;
      NeverGoesBackExactly(After(s, steps[0]), steps[1..], tab);
    }
  }

  /** A restoring load that has something to bring. */
  ghost predicate WillRestore(s: System, tab: TabId, n: nat) {
    tab in s.tabs && n in s.tabs[tab].loads && Restores(s.tabs[tab].loads[n]) &&
    match s.tabs[tab].loads[n].outcome
    case LoadPending => !Read(s.record).RecoveryRequired?
    case LoadDone(result) => !result.RecoveryRequired?
    case LoadFailed => false
  }

  /** The revision the load brings. */
  ghost function Brings(s: System, tab: TabId, n: nat): int
    requires WillRestore(s, tab, n)
  {
    var t := s.tabs[tab];
    var result := if t.loads[n].outcome.LoadPending? then Read(s.record) else t.loads[n].outcome.result;
    if result.Ready? then result.workspace.revision else t.initial.revision
  }

  /** The load answers, if it has not, and settles. */
  function Settling(s: System, tab: TabId, n: nat): seq<Step>
    requires tab in s.tabs && n in s.tabs[tab].loads
  {
    (if s.tabs[tab].loads[n].outcome.LoadPending? then [RunLoad(tab, n)] else []) + [LoadSettles(tab, n)]
  }

  lemma SettlingBrings(s: System, tab: TabId, n: nat)
    requires WillRestore(s, tab, n)
    ensures Possible(s, Settling(s, tab, n)) && tab in Outcome(s, Settling(s, tab, n)).tabs
    ensures Outcome(s, Settling(s, tab, n)).tabs[tab].workspace.revision == Brings(s, tab, n)
  {
    var t, steps := s.tabs[tab], Settling(s, tab, n);
    if t.loads[n].outcome.LoadPending? {
      var s' := After(s, RunLoad(tab, n));
      var last := [LoadSettles(tab, n)];
      assert steps == [RunLoad(tab, n)] + last && steps[1..] == last && last[1..] == [];
      assert Enabled(s', last[0]) && Outcome(s', last) == After(s', last[0]);
    } else {
      assert steps[1..] == [];
    }
  }

  /** Why calm runs rule such edits out: while a restoring load that has something to bring is
      outstanding, any edit above what it brings can be followed by steps, none of them an edit, that
      take the tab back below it. */
  lemma EditBeforeRestoreGoesBack(s: System, tab: TabId, n: nat, w: Workspace)
    requires WillRestore(s, tab, n) && s.tabs[tab].mounted && w.revision > Brings(s, tab, n)
    ensures var edited := After(s, Edit(tab, w, false));
      tab in edited.tabs && edited.tabs[tab].dirty && edited.tabs[tab].workspace == w && n in edited.tabs[tab].loads &&
      Possible(edited, Settling(edited, tab, n)) &&
      var outcome := Outcome(edited, Settling(edited, tab, n));
      tab in outcome.tabs && outcome.tabs[tab].workspace.revision == Brings(s, tab, n) < w.revision
  {
    var edited := After(s, Edit(tab, w, false));
    assert WillRestore(edited, tab, n) && Brings(edited, tab, n) == Brings(s, tab, n);
    SettlingBrings(edited, tab, n);
  }

  /** The work is in no store and only unsaved in the tab. */
  ghost predicate AtRisk(s: System, tab: TabId, w: Workspace) {
    !AtLeast(s.record, w.revision) && tab in s.tabs && s.tabs[tab].dirty && s.tabs[tab].workspace == w
  }

  /** The work is still in the tab, or the store holds a revision at least as new. */
  ghost predicate NotLost(s: System, tab: TabId, w: Workspace) {
    AtLeast(s.record, w.revision) ||
    (tab in s.tabs && s.tabs[tab].dirty && s.tabs[tab].workspace == w)
  }

  /** A restoring load settles over the tab with anything but the default it is already on. */
  predicate Discards(t: Tab, step: Step) {
    step.LoadSettles? && step.call in t.loads && Restores(t.loads[step.call]) &&
    match t.loads[step.call].outcome
    case LoadDone(NoRecord) => t.initial != t.workspace
    case LoadDone(_) => true
    case _ => false
  }

  /** Work at risk is dropped by a step, other than the tab's next edit, exactly when the step
      discards it. */
  lemma WorkDroppedExactlyWhen(s: System, step: Step, tab: TabId, w: Workspace)
    requires AllHonest(s) && Enabled(s, step) && AtRisk(s, tab, w) && !(step.Edit? && step.tab == tab)
    ensures !NotLost(After(s, step), tab, w) <==> step.tab == tab && Discards(s.tabs[tab], step)
  {
    assert Honest(s.record, s.tabs[tab]);
    RecordNeverGoesBack(s, step);
  }

  ghost predicate NeverDiscarded(s: System, steps: seq<Step>, tab: TabId, w: Workspace)
    requires Possible(s, steps)
    decreases |steps|
  {
    steps == [] ||
    (!(AtRisk(s, tab, w) && steps[0].tab == tab && Discards(s.tabs[tab], steps[0])) &&
     NeverDiscarded(After(s, steps[0]), steps[1..], tab, w))
  }

  ghost predicate KeptThroughout(s: System, steps: seq<Step>, tab: TabId, w: Workspace)
    requires Possible(s, steps)
    decreases |steps|
  {
    NotLost(s, tab, w) && (steps == [] || KeptThroughout(After(s, steps[0]), steps[1..], tab, w))
  }

  /** Over every possible run without another edit of the tab, calm or not, unsaved work is kept at
      every moment, in the tab or by the store, exactly when no step discards it while it is at risk. */
  lemma {:induction false} KeptThroughoutExactly(s: System, steps: seq<Step>, tab: TabId, w: Workspace)
    requires AllHonest(s) && Possible(s, steps) && NotLost(s, tab, w)
    requires forall k :: 0 <= k < |steps| ==> !(steps[k].Edit? && steps[k].tab == tab)
    ensures KeptThroughout(s, steps, tab, w) <==> NeverDiscarded(s, steps, tab, w)
    decreases |steps|
  {
    if steps != [] {
      var next := After(s, steps[0]);
      HonestKept(s, steps[0]);
      RecordNeverGoesBack(s, steps[0]);
      if AtRisk(s, tab, w) { WorkDroppedExactlyWhen(s, steps[0], tab, w); }
      hide TabAfter, RecordAfter, After, Discards, Enabled, AllHonest;
      if NotLost(next, tab, w) {
        KeptThroughoutExactly(next, steps[1..], tab, w);
      } else {
        LostFromStart(next, steps[1..], tab, w);
      }
    }
  }

  lemma LostFromStart(s: System, steps: seq<Step>, tab: TabId, w: Workspace)
    requires Possible(s, steps) && !NotLost(s, tab, w)
    ensures !KeptThroughout(s, steps, tab, w)
  {
  }

  // ----- runs in which nothing overtakes a restoring load -----

  /** A broadcast load's answer that a settlement would adopt. */
  predicate AdoptsOutcome(t: Tab, outcome: LoadOutcome) { outcome.LoadDone? && Adopts(t, outcome.result) }

  /** Edits raise the revision; no edit, no second restoring load and no adoption of another tab's
      revision happens while a restoring load of the tab is outstanding. */
  ghost predicate Calm(s: System, step: Step)
    requires Enabled(s, step)
  {
    var t := s.tabs[step.tab];
    match step
    case Edit(_, w, _) => w.revision > t.workspace.revision && !RestoreOutstanding(t)
    case RetryStep(_) => t.dirty || !RestoreOutstanding(t)
    case LoadSettles(_, n) => Restores(t.loads[n]) || !RestoreOutstanding(t) || !AdoptsOutcome(t, t.loads[n].outcome)
    case _ => true
  }

  ghost predicate CalmRun(s: System, steps: seq<Step>): (calm: bool)
    ensures calm ==> Possible(s, steps)
    decreases |steps|
  {
    steps == [] || (Enabled(s, steps[0]) && Calm(s, steps[0]) && CalmRun(After(s, steps[0]), steps[1..]))
  }

  ghost predicate FreshKeys(t: Tab) {
    && (forall n :: n in t.saves ==> n <= t.sequence)
    && (forall n :: n in t.loads ==> n < t.nextLoad)
    && (forall n, m :: n in t.loads && m in t.loads && Restores(t.loads[n]) && Restores(t.loads[m]) ==> n == m)
  }

  /** A clean tab is no newer than the store, or still on the default workspace; and a restoring
      load in flight finds the tab clean and brings nothing older. */
  ghost predicate Ordered(r: Record, t: Tab) {
    && FreshKeys(t)
    && t.initial.revision == DEFAULT_REVISION
    && (!t.dirty ==> AtLeast(r, t.workspace.revision) || t.workspace == t.initial)
    && (RestoreOutstanding(t) ==> !t.dirty)
    && (forall n :: n in t.loads && Restores(t.loads[n]) && t.loads[n].outcome.LoadDone? ==>
          match t.loads[n].outcome.result
          case Ready(w) => w.revision >= t.workspace.revision
          case NoRecord => t.workspace == t.initial
          case RecoveryRequired(_) => true)
  }

  lemma OrderedBeginSave(r: Record, t: Tab, w: Workspace)
    requires Ordered(r, t)
    ensures Ordered(r, BeginSave(t, w))
  {
    var t' := BeginSave(t, w);
    assert t'.loads == t.loads;
    assert RestoreOutstanding(t') <==> RestoreOutstanding(t);
  }

  lemma OrderedAnswered(r: Record, r': Record, t: Tab, n: nat, outcome: SaveOutcome)
    requires Ordered(r, t) && n in t.saves && NotOlder(r, r')
    ensures Ordered(r', Answered(t, n, outcome))
  {
    var t' := Answered(t, n, outcome);
    assert t'.loads == t.loads;
    assert RestoreOutstanding(t') <==> RestoreOutstanding(t);
  }

  lemma OrderedLoaded(r: Record, t: Tab, n: nat, outcome: LoadOutcome)
    requires Ordered(r, t) && n in t.loads
    requires outcome.LoadDone? ==> outcome.result == Read(r)
    ensures Ordered(r, Loaded(t, n, outcome))
  {
    var t' := Loaded(t, n, outcome);
    assert forall m :: m in t'.loads ==> m in t.loads && t'.loads[m].kind == t.loads[m].kind;
    assert RestoreOutstanding(t') ==> RestoreOutstanding(t);
    if Restores(t.loads[n]) { assert RestoreOutstanding(t); }
  }

  lemma OrderedSettleSave(r: Record, t: Tab, n: nat)
    requires Ordered(r, t) && Honest(r, t) && n in t.saves
    ensures Ordered(r, SettleSave(t, n))
  {
    var t' := SettleSave(t, n);
    assert t'.loads == t.loads;
    assert RestoreOutstanding(t') <==> RestoreOutstanding(t);
  }

  lemma OrderedBeginLoad(r: Record, t: Tab, kind: LoadKind)
    requires Ordered(r, t)
    requires kind == BroadcastLoad || (!t.dirty && !RestoreOutstanding(t))
    ensures Ordered(r, BeginLoad(t, kind))
  {
    var t' := BeginLoad(t, kind);
    assert forall n :: n in t.loads ==> n in t'.loads && t'.loads[n] == t.loads[n] && n != t.nextLoad;
    assert forall n :: n in t'.loads && n != t.nextLoad ==> n in t.loads;
  }

  lemma OrderedWithoutLoad(r: Record, t: Tab, n: nat)
    requires Ordered(r, t) && n in t.loads
    ensures Ordered(r, t.(loads := t.loads - {n}))
    ensures Restores(t.loads[n]) ==> !RestoreOutstanding(t.(loads := t.loads - {n}))
  {
    var t' := t.(loads := t.loads - {n});
    assert forall m :: m in t'.loads ==> m in t.loads && t'.loads[m] == t.loads[m];
    assert RestoreOutstanding(t') ==> RestoreOutstanding(t);
  }

  lemma OrderedSettleLoad(r: Record, t: Tab, n: nat)
    requires Ordered(r, t) && Honest(r, t) && n in t.loads
    requires Restores(t.loads[n]) || !RestoreOutstanding(t) || !AdoptsOutcome(t, t.loads[n].outcome)
    ensures Ordered(r, SettleLoad(t, n))
    ensures SettleLoad(t, n).workspace.revision >= t.workspace.revision
  {
    var call, t' := t.loads[n], t.(loads := t.loads - {n});
    OrderedWithoutLoad(r, t, n);
    if Restores(call) {
      assert RestoreOutstanding(t);
      if call.outcome == LoadDone(NoRecord) {
        var t'' := t'.(workspace := t.initial, dirty := true, recovery := None, phase := Saving, timer := None);
        assert Ordered(r, t'') by { assert t''.loads == t'.loads; }
        OrderedBeginSave(r, t'', t.initial);
      } else {
        assert SettleLoad(t, n).loads == t'.loads;
      }
    } else {
      assert SettleLoad(t, n).loads == t'.loads;
      assert RestoreOutstanding(t') ==> RestoreOutstanding(t);
    }
  }

  /** One calm step of a tab keeps the order and never takes its revision back. */
  lemma OrderedOwnStep(s: System, step: Step)
    requires Enabled(s, step) && Calm(s, step)
    requires Honest(s.record, s.tabs[step.tab]) && Ordered(s.record, s.tabs[step.tab])
    ensures Ordered(RecordAfter(s, step), TabAfter(s, step))
    ensures TabAfter(s, step).workspace.revision >= s.tabs[step.tab].workspace.revision
  {
    RecordNeverGoesBack(s, step);
    var r, r', t := s.record, RecordAfter(s, step), s.tabs[step.tab];
    match step
    case CommitSave(_, n) => OrderedAnswered(r, r', t, n, SaveDone(SaveVerdict(r, t.saves[n].snapshot)));
    case AbortSave(_, n) => OrderedAnswered(r, r', t, n, SaveFailed);
    case SaveSettles(_, n) => OrderedSettleSave(r, t, n);
    case RunLoad(_, n) => OrderedLoaded(r, t, n, LoadDone(Read(r)));
    case AbortLoad(_, n) => OrderedLoaded(r, t, n, LoadFailed);
    case LoadSettles(_, n) => OrderedSettleLoad(r, t, n);
    case TimerStep(_) => OrderedBeginSave(r, t.(timer := None), t.timer.value);
    case PageHide(_) => OrderedBeginSave(r, t, t.workspace);
    case RetryStep(_) =>
      if t.dirty { OrderedBeginSave(r, t.(phase := Saving, timer := None), t.workspace); }
      else { OrderedBeginLoad(r, t.(phase := Restoring), RetryLoad); }
    case Deliver(_, _, revision) => OrderedBeginLoad(r, t, BroadcastLoad);
    case Edit(_, w, _) =>
      var t' := t.(workspace := w, dirty := true, recovery := None, phase := Saving, timer := None);
      assert t'.loads == t.loads;
      OrderedBeginSave(r, t', w);
    case Close(_) =>
  }

  ghost predicate AllOrdered(s: System) {
    AllHonest(s) && forall i :: i in s.tabs ==> Ordered(s.record, s.tabs[i])
  }

  lemma OrderedKept(s: System, step: Step)
    requires AllOrdered(s) && Enabled(s, step) && Calm(s, step)
    ensures AllOrdered(After(s, step)) && After(s, step).tabs.Keys == s.tabs.Keys
    ensures forall i :: i in s.tabs ==> After(s, step).tabs[i].workspace.revision >= s.tabs[i].workspace.revision
  {
    HonestKept(s, step);
    RecordNeverGoesBack(s, step);
    OrderedOwnStep(s, step);
    forall i | i in After(s, step).tabs ensures Ordered(After(s, step).record, After(s, step).tabs[i]) {
      assert Ordered(s.record, s.tabs[i]);
    }
  }

  lemma StartIsOrdered(s: System, initial: Workspace)
    requires Start(s, initial)
    ensures AllOrdered(s)
  {
  }

  /** Over calm runs no tab's revision ever decreases. */
  lemma {:induction false} RevisionsNeverGoBack(s: System, steps: seq<Step>)
    requires AllOrdered(s) && CalmRun(s, steps)
    ensures AllOrdered(Outcome(s, steps)) && Outcome(s, steps).tabs.Keys == s.tabs.Keys
    ensures forall i :: i in s.tabs ==>
      Outcome(s, steps).tabs[i].workspace.revision >= s.tabs[i].workspace.revision
    decreases |steps|
  {
    hide TabAfter, RecordAfter, After, Calm, Ordered, Honest, Enabled;
    if steps != [] {
      OrderedKept(s, steps[0]);
      RevisionsNeverGoBack(After(s, steps[0]), steps[1..]);
    }
  }

  lemma WorkStaysOrIsSaved(s: System, step: Step, w: Workspace)
    requires AllOrdered(s) && Enabled(s, step) && !step.Edit?
    requires s.tabs[step.tab].dirty && s.tabs[step.tab].workspace == w
    ensures NotLost(After(s, step), step.tab, w)
  {
    var t := s.tabs[step.tab];
    assert Honest(s.record, t) && Ordered(s.record, t);
    if step.LoadSettles? {
      assert Restores(t.loads[step.call]) ==> RestoreOutstanding(t);
    }
    HonestOwnStep(s, step);
  }

  lemma NotLostKept(s: System, step: Step, tab: TabId, w: Workspace)
    requires AllOrdered(s) && Enabled(s, step) && NotLost(s, tab, w)
    requires !(step.Edit? && step.tab == tab)
    ensures NotLost(After(s, step), tab, w)
  {
    RecordNeverGoesBack(s, step);
    if !AtLeast(s.record, w.revision) && step.tab == tab { WorkStaysOrIsSaved(s, step, w); }
  }

  /** Over calm runs an unsaved edit is never lost: until the user edits again it stays in the
      tab, or the store has caught up with it. */
  lemma {:induction false} UnsavedWorkIsNeverLost(s: System, steps: seq<Step>, tab: TabId, w: Workspace)
    requires AllOrdered(s) && CalmRun(s, steps) && NotLost(s, tab, w)
    requires forall k :: 0 <= k < |steps| ==> !(steps[k].Edit? && steps[k].tab == tab)
    ensures NotLost(Outcome(s, steps), tab, w)
    decreases |steps|
  {
    hide TabAfter, RecordAfter, After, Calm, AllOrdered, Enabled, NotLost;
    if steps != [] {
      OrderedKept(s, steps[0]);
      NotLostKept(s, steps[0], tab, w);
      UnsavedWorkIsNeverLost(After(s, steps[0]), steps[1..], tab, w);
    }
  }

  // ----- one tab on its own -----

  /** Snapshots on their way to the store are older than the workspace, or are the workspace. */
  predicate OlderOrSame(a: Workspace, b: Workspace) { a.revision < b.revision || a == b }

  ghost predicate NothingOnItsWay(t: Tab) { t.saves == map[] && t.timer.None? }

  /** The store and the only tab, exactly. */
  ghost predicate Exact(r: Record, t: Tab) {
    && FreshKeys(t)
    && (t.timer.Some? ==> OlderOrSame(t.timer.value, t.workspace))
    && (forall n :: n in t.saves ==> OlderOrSame(t.saves[n].snapshot, t.workspace))
    && (forall n ::
          n in t.saves && t.saves[n].outcome == SaveDone(Saved) && t.saves[n].snapshot.revision == t.workspace.revision
          ==> r == Stored(t.workspace))
    && (t.phase == PhaseSaved ==> r == Stored(t.workspace))
    && (!t.dirty ==> r == Stored(t.workspace) || NothingOnItsWay(t))
    && (RestoreOutstanding(t) ==> !t.dirty)
    && (forall n :: n in t.loads ==> Restores(t.loads[n]))
    && (forall n :: n in t.loads && t.loads[n].outcome.LoadDone? ==> t.loads[n].outcome.result == Read(r))
  }

  lemma ExactBeginSave(r: Record, t: Tab, w: Workspace)
    requires Exact(r, t) && (t.dirty || r == Stored(t.workspace)) && OlderOrSame(w, t.workspace)
    ensures Exact(r, BeginSave(t, w))
  {
    var t' := BeginSave(t, w);
    assert t'.loads == t.loads && (RestoreOutstanding(t') <==> RestoreOutstanding(t));
  }

  lemma ExactCommit(r: Record, t: Tab, n: nat)
    requires Exact(r, t) && n in t.saves
    ensures Exact(Write(r, t.saves[n].snapshot), Answered(t, n, SaveDone(SaveVerdict(r, t.saves[n].snapshot))))
  {
    var t' := Answered(t, n, SaveDone(SaveVerdict(r, t.saves[n].snapshot)));
    assert t'.loads == t.loads && (RestoreOutstanding(t') <==> RestoreOutstanding(t));
    assert !t.dirty ==> Write(r, t.saves[n].snapshot) == r;
    forall m | m in t.loads ensures !t.dirty { assert RestoreOutstanding(t); }
  }

  lemma ExactAbort(r: Record, t: Tab, n: nat)
    requires Exact(r, t) && n in t.saves
    ensures Exact(r, Answered(t, n, SaveFailed))
  {
    var t' := Answered(t, n, SaveFailed);
    assert t'.loads == t.loads && (RestoreOutstanding(t') <==> RestoreOutstanding(t));
  }

  lemma ExactSettleSave(r: Record, t: Tab, n: nat)
    requires Exact(r, t) && n in t.saves
    ensures Exact(r, SettleSave(t, n))
  {
    var t' := SettleSave(t, n);
    assert t'.loads == t.loads && (RestoreOutstanding(t') <==> RestoreOutstanding(t));
  }

  lemma ExactLoaded(r: Record, t: Tab, n: nat, outcome: LoadOutcome)
    requires Exact(r, t) && n in t.loads
    requires outcome.LoadDone? ==> outcome.result == Read(r)
    ensures Exact(r, Loaded(t, n, outcome))
  {
    var t' := Loaded(t, n, outcome);
    assert forall m :: m in t'.loads ==> m in t.loads && t'.loads[m].kind == t.loads[m].kind;
    assert RestoreOutstanding(t);
  }

  lemma ExactRetry(r: Record, t: Tab)
    requires Exact(r, t) && !t.dirty && !RestoreOutstanding(t)
    ensures Exact(r, BeginLoad(t.(phase := Restoring), RetryLoad))
  {
    assert t.loads == map[] by {
      forall n | n in t.loads ensures false { assert RestoreOutstanding(t); }
    }
  }

  lemma ExactWithoutLoad(r: Record, t: Tab, n: nat)
    requires Exact(r, t) && n in t.loads
    ensures !t.dirty && t.loads - {n} == map[] && Exact(r, t.(loads := map[]))
  {
    assert RestoreOutstanding(t);
  }

  /** A restoring load gives the tab exactly what the store holds. */
  lemma ExactSettleLoad(r: Record, t: Tab, n: nat)
    requires Exact(r, t) && n in t.loads && !t.loads[n].outcome.LoadPending?
    ensures Exact(r, SettleLoad(t, n))
  {
    var call, t' := t.loads[n], t.(loads := map[]);
    ExactWithoutLoad(r, t, n);
    if call.outcome == LoadDone(NoRecord) {
      assert NothingOnItsWay(t);
      var t'' := t'.(workspace := t.initial, dirty := true, recovery := None, phase := Saving, timer := None);
      ExactBeginSave(r, t'', t.initial);
    }
  }

  lemma ExactEdit(r: Record, t: Tab, w: Workspace, immediate: bool)
    requires Exact(r, t) && w.revision > t.workspace.revision && !RestoreOutstanding(t)
    ensures Exact(r, Replace(t, w, immediate))
  {
    assert t.loads == map[] by {
      forall n | n in t.loads ensures false { assert RestoreOutstanding(t); }
    }
    var t' := t.(workspace := w, dirty := true, recovery := None, phase := Saving, timer := None);
    assert Exact(r, t');
    ExactBeginSave(r, t', w);
  }

  lemma ExactOwnStep(s: System, step: Step)
    requires s.tabs.Keys == {step.tab} && Enabled(s, step) && Calm(s, step)
    requires Exact(s.record, s.tabs[step.tab])
    ensures Exact(RecordAfter(s, step), TabAfter(s, step))
  {
    var r, t := s.record, s.tabs[step.tab];
    assert forall i :: i in s.tabs <==> i == step.tab;
    match step
    case CommitSave(_, n) => ExactCommit(r, t, n);
    case AbortSave(_, n) => ExactAbort(r, t, n);
    case SaveSettles(_, n) => ExactSettleSave(r, t, n);
    case RunLoad(_, n) => ExactLoaded(r, t, n, LoadDone(Read(r)));
    case AbortLoad(_, n) => ExactLoaded(r, t, n, LoadFailed);
    case LoadSettles(_, n) => ExactSettleLoad(r, t, n);
    case TimerStep(_) => ExactBeginSave(r, t.(timer := None), t.timer.value);
    case PageHide(_) => if t.dirty { ExactBeginSave(r, t, t.workspace); }
    case RetryStep(_) =>
      if t.dirty { ExactBeginSave(r, t.(phase := Saving, timer := None), t.workspace); } else { ExactRetry(r, t); }
    case Edit(_, w, immediate) => ExactEdit(r, t, w, immediate);
    case _ =>
  }

  /** A single tab, any calm interleaving of debounced, immediate and page-hide saves, retries and
      transactions that commit or answer late: "saved" means the store holds the tab's workspace. */
  lemma {:induction false} SavedMeansStored(s: System, steps: seq<Step>, tab: TabId)
    requires s.tabs.Keys == {tab} && Exact(s.record, s.tabs[tab]) && CalmRun(s, steps)
    ensures Outcome(s, steps).tabs.Keys == {tab}
    ensures Exact(Outcome(s, steps).record, Outcome(s, steps).tabs[tab])
    ensures Outcome(s, steps).tabs[tab].phase == PhaseSaved ==>
      Outcome(s, steps).record == Stored(Outcome(s, steps).tabs[tab].workspace)
    decreases |steps|
  {
    if steps != [] {
      ExactOwnStep(s, steps[0]);
      SavedMeansStored(After(s, steps[0]), steps[1..], tab);
    }
  }

  lemma StartIsExact(s: System, initial: Workspace, tab: TabId)
    requires Start(s, initial) && s.tabs.Keys == {tab}
    ensures Exact(s.record, s.tabs[tab])
  {
  }

  // ----- exactly when "saved" stops meaning stored -----

  /** If the tab shows "saved", the store holds its workspace. */
  predicate Agrees(s: System, tab: TabId) {
    tab in s.tabs && (s.tabs[tab].phase == PhaseSaved ==> s.record == Stored(s.tabs[tab].workspace))
  }

  /** The load brings a workspace that the tab takes up and the store does not hold. */
  predicate InstallsOther(r: Record, t: Tab, call: LoadCall) {
    match call.outcome
    case LoadDone(Ready(w)) => (Restores(call) || Adopts(t, Ready(w))) && r != Stored(w)
    case _ => false
  }

  /** Somebody's save of other work that is not older is stored over a tab that shows "saved"; or the
      tab learns that its latest save succeeded, or takes up a load, when the store has moved on. */
  predicate BreaksAgreement(s: System, step: Step, tab: TabId)
    requires Enabled(s, step) && tab in s.tabs
  {
    var t := s.tabs[tab];
    match step
    case CommitSave(i, n) =>
      var w := s.tabs[i].saves[n].snapshot;
      t.phase == PhaseSaved && w != t.workspace && w.revision >= t.workspace.revision
    case SaveSettles(i, n) =>
      i == tab && t.mounted && n == t.sequence && t.saves[n].outcome == SaveDone(Saved) &&
      t.saves[n].snapshot.revision == t.workspace.revision && s.record != Stored(t.workspace)
    case LoadSettles(i, n) => i == tab && InstallsOther(s.record, t, t.loads[n])
    case _ => false
  }

  /** Whatever the system's state, a step makes a tab show "saved" without the store holding its
      workspace exactly when it breaks the agreement. */
  lemma AgreementEndsExactlyWhen(s: System, step: Step, tab: TabId)
    requires Enabled(s, step) && Agrees(s, tab)
    ensures !Agrees(After(s, step), tab) <==> BreaksAgreement(s, step, tab)
  {
  }

  ghost predicate NothingBreaks(s: System, steps: seq<Step>, tab: TabId)
    requires Possible(s, steps) && tab in s.tabs
    decreases |steps|
  {
    steps == [] || (!BreaksAgreement(s, steps[0], tab) && NothingBreaks(After(s, steps[0]), steps[1..], tab))
  }

  ghost predicate AgreesThroughout(s: System, steps: seq<Step>, tab: TabId)
    requires Possible(s, steps)
    decreases |steps|
  {
    Agrees(s, tab) && (steps == [] || AgreesThroughout(After(s, steps[0]), steps[1..], tab))
  }

  /** Over every possible run of any tabs, calm or not, "saved" means stored at every moment exactly
      when no step of the run breaks the agreement. */
  lemma {:induction false} AgreesThroughoutExactly(s: System, steps: seq<Step>, tab: TabId)
    requires Possible(s, steps) && Agrees(s, tab)
    ensures AgreesThroughout(s, steps, tab) <==> NothingBreaks(s, steps, tab)
    decreases |steps|
  {
    if steps != [] {
      AgreementEndsExactlyWhen(s, steps[0], tab);
      hide TabAfter, RecordAfter, BreaksAgreement, Enabled;
      if Agrees(After(s, steps[0]), tab) { AgreesThroughoutExactly(After(s, steps[0]), steps[1..], tab); }
    }
  }

  lemma StartAgrees(s: System, initial: Workspace, tab: TabId)
    requires Start(s, initial) && tab in s.tabs
    ensures Agrees(s, tab)
  {
  }

  // ----- the run the calm condition excludes -----

  ghost predicate RunsTo(s: System, steps: seq<Step>, s': System) {
    Possible(s, steps) && Outcome(s, steps) == s'
  }

  lemma RunStep(s: System, step: Step, steps: seq<Step>, s': System)
    requires Enabled(s, step) && RunsTo(After(s, step), steps, s')
    ensures RunsTo(s, [step] + steps, s')
  {
    assert ([step] + steps)[1..] == steps;
  }

  const READ := Workspace(2, "stored", false)

  /** Two tabs open over revision 2; the first tab's initial load has read it and not yet settled. */
  function Opening(initial: Workspace): System {
    System(Stored(READ), map[0 := OpenedTab(initial), 1 := OpenedTab(initial)])
  }

  function FirstTab(initial: Workspace): Tab {
    OpenedTab(initial).(loads := map[0 := LoadCall(InitialLoad, LoadDone(Ready(READ)))])
  }

  /** A tab that has read it and settled. */
  function ReadTab(initial: Workspace): Tab {
    OpenedTab(initial).(workspace := READ, phase := PhaseSaved, loads := map[])
  }

  /** Both tabs read revision 2, the second tab also settles its load. */
  function SecondOpens(): seq<Step> {
    [RunLoad(0, 0)] + ([RunLoad(1, 0)] + ([LoadSettles(1, 0)] + []))
  }

  function AfterSecondOpens(initial: Workspace): System {
    System(Stored(READ), map[0 := FirstTab(initial), 1 := ReadTab(initial)])
  }

  /** The second tab saves revision 3. */
  function SecondSaves(third: Workspace): seq<Step> {
    [Edit(1, third, true)] + ([CommitSave(1, 1)] + ([SaveSettles(1, 1)] + []))
  }

  function AfterSecondSaves(initial: Workspace, third: Workspace): System {
    System(Stored(third), map[
      0 := FirstTab(initial),
      1 := OpenedTab(initial).(workspace := third, phase := PhaseSaved, sequence := 1, loads := map[], posted := [3])])
  }

  /** The first tab adopts revision 3, is edited to revision 4, and then its initial load settles. */
  function FirstAdopts(fourth: Workspace): seq<Step> {
    [Deliver(0, 1, 3)] + ([RunLoad(0, 1)] + ([LoadSettles(0, 1)] + ([Edit(0, fourth, false)] + [])))
  }

  function AfterEdit(initial: Workspace, third: Workspace, fourth: Workspace): System {
    AfterSecondSaves(initial, third).(tabs := AfterSecondSaves(initial, third).tabs[
      0 := FirstTab(initial).(workspace := fourth, dirty := true, phase := Saving,
                              timer := Some(fourth), nextLoad := 2)])
  }

  lemma OneEntry<V>(n: nat, a: V, b: V)
    ensures map[n := a][n := b] == map[n := b] && map[n := a] - {n} == map[]
  {
  }

  lemma SecondTabOpens(initial: Workspace)
    ensures RunsTo(Opening(initial), SecondOpens(), AfterSecondOpens(initial))
  {
    var s0, goal, t := Opening(initial), AfterSecondOpens(initial), OpenedTab(initial);
    OneEntry(0, LoadCall(InitialLoad, LoadPending), LoadCall(InitialLoad, LoadDone(Ready(READ))));
    OneEntry(0, LoadCall(InitialLoad, LoadDone(Ready(READ))), LoadCall(InitialLoad, LoadPending));
    var s1 := System(Stored(READ), map[0 := FirstTab(initial), 1 := t]);
    assert After(s0, RunLoad(0, 0)) == s1;
    var s2 := System(Stored(READ), map[0 := FirstTab(initial), 1 := FirstTab(initial)]);
    assert After(s1, RunLoad(1, 0)) == s2;
    assert After(s2, LoadSettles(1, 0)) == goal;
    RunStep(s2, LoadSettles(1, 0), [], goal);
    RunStep(s1, RunLoad(1, 0), [LoadSettles(1, 0)] + [], goal);
    RunStep(s0, RunLoad(0, 0), [RunLoad(1, 0)] + ([LoadSettles(1, 0)] + []), goal);
  }

  lemma SecondTabSaves(initial: Workspace, third: Workspace)
    requires third.revision == 3
    ensures RunsTo(AfterSecondOpens(initial), SecondSaves(third), AfterSecondSaves(initial, third))
  {
    var s0, goal := AfterSecondOpens(initial), AfterSecondSaves(initial, third);
    OneEntry(1, SaveCall(third, SavePending), SaveCall(third, SaveDone(Saved)));
    OneEntry(1, SaveCall(third, SaveDone(Saved)), SaveCall(third, SaveDone(Saved)));
    var t := s0.tabs[1].(workspace := third, dirty := true, phase := Saving, sequence := 1,
                         saves := map[1 := SaveCall(third, SavePending)]);
    var s1 := System(Stored(READ), map[0 := FirstTab(initial), 1 := t]);
    assert After(s0, Edit(1, third, true)) == s1;
    var answered := t.(saves := map[1 := SaveCall(third, SaveDone(Saved))]);
    var s2 := System(Stored(third), map[0 := FirstTab(initial), 1 := answered]);
    assert After(s1, CommitSave(1, 1)) == s2;
    assert SettleSave(answered, 1) == goal.tabs[1] by { assert [] + [3] == [3]; }
    assert After(s2, SaveSettles(1, 1)) == goal;
    RunStep(s2, SaveSettles(1, 1), [], goal);
    RunStep(s1, CommitSave(1, 1), [SaveSettles(1, 1)] + [], goal);
    RunStep(s0, Edit(1, third, true), [CommitSave(1, 1)] + ([SaveSettles(1, 1)] + []), goal);
  }

  lemma FirstTabAdoptsAndIsEdited(initial: Workspace, third: Workspace, fourth: Workspace)
    requires initial.revision == DEFAULT_REVISION && third.revision == 3 && !third.metadata
    ensures RunsTo(AfterSecondSaves(initial, third), FirstAdopts(fourth), AfterEdit(initial, third, fourth))
  {
    var s0, goal := AfterSecondSaves(initial, third), AfterEdit(initial, third, fourth);
    var t := FirstTab(initial);
    var two := t.loads[1 := LoadCall(BroadcastLoad, LoadPending)];
    var s1 := s0.(tabs := s0.tabs[0 := t.(loads := two, nextLoad := 2)]);
    assert After(s0, Deliver(0, 1, 3)) == s1;
    var read := two[1 := LoadCall(BroadcastLoad, LoadDone(Ready(third)))];
    var s2 := s0.(tabs := s0.tabs[0 := t.(loads := read, nextLoad := 2)]);
    assert After(s1, RunLoad(0, 1)) == s2;
    assert read - {1} == t.loads;
    var s3 := s0.(tabs := s0.tabs[0 := t.(workspace := third, phase := PhaseSaved, nextLoad := 2)]);
    assert After(s2, LoadSettles(0, 1)) == s3;
    assert After(s3, Edit(0, fourth, false)) == goal;
    RunStep(s3, Edit(0, fourth, false), [], goal);
    RunStep(s2, LoadSettles(0, 1), [Edit(0, fourth, false)] + [], goal);
    RunStep(s1, RunLoad(0, 1), [LoadSettles(0, 1)] + ([Edit(0, fourth, false)] + []), goal);
    RunStep(s0, Deliver(0, 1, 3), [RunLoad(0, 1)] + ([LoadSettles(0, 1)] + ([Edit(0, fourth, false)] + [])), goal);
  }

  /** The late settlement throws the unsaved edit away: the tab's revision falls from 4 to 2 and
      the tab shows "saved" although the store holds revision 3. */
  lemma LateInitialLoadDiscardsEdit(initial: Workspace, third: Workspace, fourth: Workspace)
    requires initial.revision == DEFAULT_REVISION && third.revision == 3 && !third.metadata && fourth.revision == 4
    ensures RunsTo(Opening(initial), SecondOpens(), AfterSecondOpens(initial))
    ensures RunsTo(AfterSecondOpens(initial), SecondSaves(third), AfterSecondSaves(initial, third))
    ensures RunsTo(AfterSecondSaves(initial, third), FirstAdopts(fourth), AfterEdit(initial, third, fourth))
    ensures var s := AfterEdit(initial, third, fourth);
      s.tabs[0].dirty && s.tabs[0].workspace == fourth && Enabled(s, LoadSettles(0, 0)) &&
      After(s, LoadSettles(0, 0)).record == Stored(third) &&
      var t := After(s, LoadSettles(0, 0)).tabs[0];
      t.workspace.revision == 2 && !t.dirty && t.phase == PhaseSaved
  {
    SecondTabOpens(initial);
    SecondTabSaves(initial, third);
    FirstTabAdoptsAndIsEdited(initial, third, fourth);
  }

  // ----- two tabs on one revision -----

  ghost predicate CalmlyRunsTo(s: System, steps: seq<Step>, s': System) {
    CalmRun(s, steps) && Outcome(s, steps) == s'
  }

  lemma CalmStep(s: System, step: Step, steps: seq<Step>, s': System)
    requires Enabled(s, step) && Calm(s, step) && CalmlyRunsTo(After(s, step), steps, s')
    ensures CalmlyRunsTo(s, [step] + steps, s')
  {
    assert ([step] + steps)[1..] == steps;
  }

  /** A tab that was edited to `w`, with what became of the save. */
  function EditedTab(initial: Workspace, w: Workspace, outcome: SaveOutcome): Tab {
    ReadTab(initial).(workspace := w, dirty := true, phase := Saving, sequence := 1,
                      saves := map[1 := SaveCall(w, outcome)])
  }

  function SavedTab(initial: Workspace, w: Workspace): Tab {
    ReadTab(initial).(workspace := w, phase := PhaseSaved, sequence := 1, posted := [w.revision])
  }

  /** The first tab reads, edits and saves. */
  function FirstSaves(a: Workspace): seq<Step> {
    [LoadSettles(0, 0)] + ([Edit(0, a, true)] + ([CommitSave(0, 1)] + ([SaveSettles(0, 1)] + [])))
  }

  function AfterFirstSaves(initial: Workspace, a: Workspace): System {
    System(Stored(a), map[0 := SavedTab(initial, a), 1 := ReadTab(initial)])
  }

  /** Before it hears of that, the second tab stores other work of the same revision. */
  function SecondOverwrites(b: Workspace): seq<Step> { [Edit(1, b, true)] + ([CommitSave(1, 1)] + []) }

  function AfterOverwrite(initial: Workspace, a: Workspace, b: Workspace): System {
    System(Stored(b), map[0 := SavedTab(initial, a), 1 := EditedTab(initial, b, SaveDone(Saved))])
  }

  lemma FirstTabSaves(initial: Workspace, a: Workspace)
    requires a.revision == 3
    ensures CalmlyRunsTo(AfterSecondOpens(initial), FirstSaves(a), AfterFirstSaves(initial, a))
  {
    var s0, goal, other := AfterSecondOpens(initial), AfterFirstSaves(initial, a), ReadTab(initial);
    OneEntry(0, LoadCall(InitialLoad, LoadDone(Ready(READ))), LoadCall(InitialLoad, LoadPending));
    OneEntry(1, SaveCall(a, SavePending), SaveCall(a, SaveDone(Saved)));
    OneEntry(1, SaveCall(a, SaveDone(Saved)), SaveCall(a, SavePending));
    var s1 := System(Stored(READ), map[0 := ReadTab(initial), 1 := other]);
    assert After(s0, LoadSettles(0, 0)) == s1;
    var s2 := System(Stored(READ), map[0 := EditedTab(initial, a, SavePending), 1 := other]);
    assert After(s1, Edit(0, a, true)) == s2;
    var s3 := System(Stored(a), map[0 := EditedTab(initial, a, SaveDone(Saved)), 1 := other]);
    assert After(s2, CommitSave(0, 1)) == s3;
    assert SettleSave(s3.tabs[0], 1) == goal.tabs[0] by { assert [] + [3] == [3]; }
    assert After(s3, SaveSettles(0, 1)) == goal;
    CalmStep(s3, SaveSettles(0, 1), [], goal);
    CalmStep(s2, CommitSave(0, 1), [SaveSettles(0, 1)] + [], goal);
    CalmStep(s1, Edit(0, a, true), [CommitSave(0, 1)] + ([SaveSettles(0, 1)] + []), goal);
    CalmStep(s0, LoadSettles(0, 0), [Edit(0, a, true)] + ([CommitSave(0, 1)] + ([SaveSettles(0, 1)] + [])), goal);
  }

  lemma SecondTabOverwrites(initial: Workspace, a: Workspace, b: Workspace)
    requires a.revision == 3 && b.revision == 3
    ensures CalmlyRunsTo(AfterFirstSaves(initial, a), SecondOverwrites(b), AfterOverwrite(initial, a, b))
  {
    var s0, goal := AfterFirstSaves(initial, a), AfterOverwrite(initial, a, b);
    OneEntry(1, SaveCall(b, SavePending), SaveCall(b, SaveDone(Saved)));
    var s1 := System(Stored(a), map[0 := SavedTab(initial, a), 1 := EditedTab(initial, b, SavePending)]);
    assert After(s0, Edit(1, b, true)) == s1;
    assert After(s1, CommitSave(1, 1)) == goal;
    CalmStep(s1, CommitSave(1, 1), [], goal);
    CalmStep(s0, Edit(1, b, true), [CommitSave(1, 1)] + [], goal);
  }

  /** A calm run of two tabs over revision 2 after which the first shows "saved" with work that the
      store no longer holds: the second tab has stored its own revision 3 over it. */
  lemma EqualRevisionsOverwrite(initial: Workspace, a: Workspace, b: Workspace)
    requires initial.revision == DEFAULT_REVISION && a.revision == 3 && b.revision == 3 && a != b
    ensures RunsTo(Opening(initial), SecondOpens(), AfterSecondOpens(initial))
    ensures CalmlyRunsTo(AfterSecondOpens(initial), FirstSaves(a), AfterFirstSaves(initial, a))
    ensures CalmlyRunsTo(AfterFirstSaves(initial, a), SecondOverwrites(b), AfterOverwrite(initial, a, b))
    ensures Agrees(AfterFirstSaves(initial, a), 0) && !Agrees(AfterOverwrite(initial, a, b), 0)
    ensures AfterOverwrite(initial, a, b).tabs[0].workspace == a && AfterOverwrite(initial, a, b).record == Stored(b)
  {
    SecondTabOpens(initial);
    FirstTabSaves(initial, a);
    SecondTabOverwrites(initial, a, b);
  }
}
