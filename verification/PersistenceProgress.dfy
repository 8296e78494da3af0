/** What the persistence protocol gets done: work that is being saved is on its way in every run, and
    saves, announcements and loads that run to their end arrive. */
module PersistenceProgress {
  import opened Text
  import opened PersistentWorkspace
  import opened PersistenceProtocol

  // ----- saving is never only claimed -----

  /** A mounted tab that shows "saving" has set its timer for the workspace, or has sent the workspace
      in its latest save and not heard of it. */
  ghost predicate UnderWay(t: Tab) {
    t.mounted && t.phase == Saving ==>
      if t.timer.Some? then t.timer.value == t.workspace
      else t.sequence in t.saves && t.saves[t.sequence].snapshot == t.workspace
  }

  ghost predicate AllUnderWay(s: System) {
    forall i :: i in s.tabs ==> UnderWay(s.tabs[i])
  }

  lemma UnderWayOwnStep(s: System, step: Step)
    requires Enabled(s, step) && UnderWay(s.tabs[step.tab])
    ensures UnderWay(TabAfter(s, step))
  {
  }

  lemma StartIsUnderWay(s: System, initial: Workspace)
    requires Start(s, initial)
    ensures AllUnderWay(s)
  {
  }

  /** Over every possible run of any tabs, whatever commits, fails, settles late or is overtaken: a
      mounted tab that shows "saving" still has the save of its workspace before it. */
  lemma {:induction false} SavingIsUnderWay(s: System, steps: seq<Step>)
    requires AllUnderWay(s) && Possible(s, steps)
    ensures AllUnderWay(Outcome(s, steps))
    decreases |steps|
  {
    hide TabAfter, RecordAfter, UnderWay;
    if steps != [] {
      UnderWayOwnStep(s, steps[0]);
      SavingIsUnderWay(After(s, steps[0]), steps[1..]);
    }
  }

  // ----- a save that runs to its end -----

  /** The tab's latest save carries the workspace it is on. */
  predicate SendsCurrent(s: System, tab: TabId, w: Workspace) {
    tab in s.tabs &&
    var t := s.tabs[tab];
    t.mounted && t.workspace == w && t.sequence in t.saves && t.saves[t.sequence] == SaveCall(w, SavePending)
  }

  function Finishing(tab: TabId, n: nat): seq<Step> { [CommitSave(tab, n)] + ([SaveSettles(tab, n)] + []) }

  /** What a finished save of the current workspace leaves behind: stored and shown so, and announced;
      or, if the store is newer, refused and shown so. */
  ghost predicate Landed(s: System, s': System, tab: TabId, w: Workspace) {
    tab in s'.tabs && s'.record == Write(s.record, w) && s'.tabs[tab].workspace == w &&
    if SaveVerdict(s.record, w) == Saved
    then
      s'.record == Stored(w) && s'.tabs[tab].phase == PhaseSaved && !s'.tabs[tab].dirty &&
      w.revision in s'.tabs[tab].posted
    else s'.record == s.record && s'.tabs[tab].phase == MemoryOnly
  }

  lemma SaveFinishes(s: System, tab: TabId, w: Workspace)
    requires SendsCurrent(s, tab, w)
    ensures var steps := Finishing(tab, s.tabs[tab].sequence);
      Possible(s, steps) && Landed(s, Outcome(s, steps), tab, w)
  {
    var n := s.tabs[tab].sequence;
    var s1 := After(s, CommitSave(tab, n));
    var s2 := After(s1, SaveSettles(tab, n));
    assert Landed(s, s2, tab, w);
    RunStep(s1, SaveSettles(tab, n), [], s2);
    RunStep(s, CommitSave(tab, n), [SaveSettles(tab, n)] + [], s2);
  }

  lemma RunsOn(s: System, step: Step, tab: TabId, w: Workspace)
    requires Enabled(s, step) && SendsCurrent(After(s, step), tab, w) && After(s, step).record == s.record
    ensures var steps := [step] + Finishing(tab, After(s, step).tabs[tab].sequence);
      Possible(s, steps) && Landed(s, Outcome(s, steps), tab, w)
  {
    hide Enabled, TabAfter;
    var s1 := After(s, step);
    var rest := Finishing(tab, s1.tabs[tab].sequence);
    SaveFinishes(s1, tab, w);
    RunStep(s, step, rest, Outcome(s1, rest));
  }

  /** A debounced edit of a mounted tab lands, whatever state the system is in, once its timer has fired
      and its save has committed and been heard of. */
  lemma DebouncedEditLands(s: System, tab: TabId, w: Workspace)
    requires tab in s.tabs && s.tabs[tab].mounted
    ensures var steps := [Edit(tab, w, false)] + ([TimerStep(tab)] + Finishing(tab, s.tabs[tab].sequence + 1));
      Possible(s, steps) && Landed(s, Outcome(s, steps), tab, w)
  {
    TimerSends(s, tab, w);
    hide TabAfter, RecordAfter, SendsCurrent, Landed, Possible, Outcome;
    var s1 := After(s, Edit(tab, w, false));
    RunsOn(s1, TimerStep(tab), tab, w);
    var rest := [TimerStep(tab)] + Finishing(tab, s.tabs[tab].sequence + 1);
    LandedSooner(s, s1, Outcome(s1, rest), tab, w);
    RunStep(s, Edit(tab, w, false), rest, Outcome(s1, rest));
  }

  lemma TimerSends(s: System, tab: TabId, w: Workspace)
    requires tab in s.tabs && s.tabs[tab].mounted
    ensures var s1 := After(s, Edit(tab, w, false));
      s1.record == s.record && Enabled(s1, TimerStep(tab)) &&
      var s2 := After(s1, TimerStep(tab));
      s2.record == s1.record && SendsCurrent(s2, tab, w) && s2.tabs[tab].sequence == s.tabs[tab].sequence + 1
  {
  }

  lemma LandedSooner(s: System, s1: System, s': System, tab: TabId, w: Workspace)
    requires s1.record == s.record && Landed(s1, s', tab, w)
    ensures Landed(s, s', tab, w)
  {
  }

  /** An immediate edit lands without a timer, and no timer is left behind to save something older. */
  lemma ImmediateEditLands(s: System, tab: TabId, w: Workspace)
    requires tab in s.tabs && s.tabs[tab].mounted
    ensures var steps := [Edit(tab, w, true)] + Finishing(tab, s.tabs[tab].sequence + 1);
      Possible(s, steps) && Landed(s, Outcome(s, steps), tab, w)
    ensures After(s, Edit(tab, w, true)).tabs[tab].timer == None
  {
    EditSends(s, tab, w);
    hide TabAfter, RecordAfter, SendsCurrent, Landed;
    RunsOn(s, Edit(tab, w, true), tab, w);
  }

  lemma EditSends(s: System, tab: TabId, w: Workspace)
    requires tab in s.tabs && s.tabs[tab].mounted
    ensures var s1 := After(s, Edit(tab, w, true));
      s1.record == s.record && SendsCurrent(s1, tab, w) && s1.tabs[tab].sequence == s.tabs[tab].sequence + 1 &&
      s1.tabs[tab].timer == None
  {
  }

  /** Hiding the page or retrying sends unsaved work at once. */
  lemma UnsavedWorkLands(s: System, tab: TabId, step: Step)
    requires tab in s.tabs && s.tabs[tab].mounted && s.tabs[tab].dirty
    requires step == PageHide(tab) || step == RetryStep(tab)
    ensures var steps := [step] + Finishing(tab, s.tabs[tab].sequence + 1);
      Possible(s, steps) && Landed(s, Outcome(s, steps), tab, s.tabs[tab].workspace)
  {
    UnsavedSends(s, tab, step);
    hide TabAfter, RecordAfter, SendsCurrent, Landed;
    RunsOn(s, step, tab, s.tabs[tab].workspace);
  }

  lemma UnsavedSends(s: System, tab: TabId, step: Step)
    requires tab in s.tabs && s.tabs[tab].mounted && s.tabs[tab].dirty
    requires step == PageHide(tab) || step == RetryStep(tab)
    ensures Enabled(s, step)
    ensures var s1 := After(s, step);
      s1.record == s.record && SendsCurrent(s1, tab, s.tabs[tab].workspace) &&
      s1.tabs[tab].sequence == s.tabs[tab].sequence + 1
  {
  }

  // ----- a load that runs to its end -----

  function Reading(tab: TabId, n: nat): seq<Step> { [RunLoad(tab, n)] + ([LoadSettles(tab, n)] + []) }

  lemma LoadFinishes(s: System, tab: TabId, n: nat)
    requires tab in s.tabs && n in s.tabs[tab].loads && s.tabs[tab].loads[n].outcome.LoadPending?
    ensures Possible(s, Reading(tab, n))
    ensures Outcome(s, Reading(tab, n)) ==
      System(s.record, s.tabs[tab := SettleLoad(Loaded(s.tabs[tab], n, LoadDone(Read(s.record))), n)])
  {
    var s1 := After(s, RunLoad(tab, n));
    var s2 := After(s1, LoadSettles(tab, n));
    assert s2.tabs == s.tabs[tab := SettleLoad(s1.tabs[tab], n)];
    RunStep(s1, LoadSettles(tab, n), [], s2);
    RunStep(s, RunLoad(tab, n), [LoadSettles(tab, n)] + [], s2);
  }

  /** Opening a tab brings it what the store holds, or sends its default there if the store holds
      nothing, or asks for recovery if what it holds cannot be read. */
  lemma OpeningRestores(s: System, initial: Workspace, tab: TabId)
    requires Start(s, initial) && tab in s.tabs
    ensures Possible(s, Reading(tab, 0)) && Outcome(s, Reading(tab, 0)).record == s.record
    ensures tab in Outcome(s, Reading(tab, 0)).tabs &&
      var t := Outcome(s, Reading(tab, 0)).tabs[tab];
      match Read(s.record)
      case Ready(w) => t.workspace == w && t.phase == PhaseSaved && !t.dirty
      case NoRecord => t.phase == Saving && SendsCurrent(Outcome(s, Reading(tab, 0)), tab, initial)
      case RecoveryRequired(reason) => t.workspace == initial && t.phase == RecoveryPhase && t.recovery == Some(reason)
  {
    LoadFinishes(s, tab, 0);
  }

  /** A retry without unsaved work brings what the store holds. */
  lemma RetryRestores(s: System, tab: TabId, w: Workspace)
    requires tab in s.tabs && s.tabs[tab].mounted && !s.tabs[tab].dirty && Read(s.record) == Ready(w)
    ensures var steps := [RetryStep(tab)] + Reading(tab, s.tabs[tab].nextLoad);
      Possible(s, steps) && tab in Outcome(s, steps).tabs &&
      Outcome(s, steps).tabs[tab].workspace == w && Outcome(s, steps).tabs[tab].phase == PhaseSaved
  {
    var s1, n := After(s, RetryStep(tab)), s.tabs[tab].nextLoad;
    LoadFinishes(s1, tab, n);
    RunStep(s, RetryStep(tab), Reading(tab, n), Outcome(s1, Reading(tab, n)));
  }

  /** An announcement makes a clean, older tab take the stored workspace over, a dirty one show that its
      work is not saved, and changes nothing in a tab that is not older. */
  lemma AnnouncementArrives(s: System, tab: TabId, from: TabId, revision: int, w: Workspace)
    requires Enabled(s, Deliver(tab, from, revision)) && Read(s.record) == Ready(w) && w.revision >= revision
    ensures var s1, t := After(s, Deliver(tab, from, revision)), s.tabs[tab];
      if revision <= t.workspace.revision then s1 == s
      else if t.dirty then s1.tabs[tab] == t.(phase := MemoryOnly)
      else
        Possible(s1, Reading(tab, t.nextLoad)) &&
        var s2 := Outcome(s1, Reading(tab, t.nextLoad));
        tab in s2.tabs && s2.tabs[tab].workspace == w && s2.tabs[tab].phase == PhaseSaved && !s2.tabs[tab].dirty
  {
    var s1, t := After(s, Deliver(tab, from, revision)), s.tabs[tab];
    if revision <= t.workspace.revision {
      assert s.tabs[tab := t] == s.tabs;
    } else if !t.dirty {
      LoadFinishes(s1, tab, t.nextLoad);
    }
  }

  // ----- what a step changes, field by field -----

  /** The latest save of a mounted tab is heard of. */
  predicate HearsLatest(t: Tab, step: Step) {
    step.SaveSettles? && t.mounted && step.call == t.sequence && step.call in t.saves
  }

  /** It succeeded, and for the revision the tab is still on. */
  predicate Confirms(t: Tab, step: Step) {
    HearsLatest(t, step) && t.saves[step.call].outcome == SaveDone(Saved) &&
    t.saves[step.call].snapshot.revision == t.workspace.revision
  }

  /** A load that installs whatever it reads is heard of, with this answer. */
  predicate RestoreSays(t: Tab, step: Step, outcome: LoadOutcome) {
    step.LoadSettles? && step.call in t.loads && Restores(t.loads[step.call]) && t.loads[step.call].outcome == outcome
  }

  predicate RestoreBringsWork(t: Tab, step: Step) {
    step.LoadSettles? && step.call in t.loads && Restores(t.loads[step.call]) &&
    match t.loads[step.call].outcome case LoadDone(Ready(_)) => true case _ => false
  }

  predicate RestoreAsksForRecovery(t: Tab, step: Step) {
    step.LoadSettles? && step.call in t.loads && Restores(t.loads[step.call]) &&
    match t.loads[step.call].outcome case LoadDone(RecoveryRequired(_)) => true case _ => false
  }

  /** A broadcast load brings work that a clean, mounted tab takes over: readable and newer. */
  predicate TakesOver(t: Tab, step: Step) {
    step.LoadSettles? && step.call in t.loads && t.loads[step.call].kind == BroadcastLoad && t.mounted && !t.dirty &&
    match t.loads[step.call].outcome
    case LoadDone(Ready(w)) => w.revision > t.workspace.revision
    case _ => false
  }

  predicate FindsNothing(t: Tab, step: Step) { RestoreSays(t, step, LoadDone(NoRecord)) }

  predicate HearsNewer(t: Tab, step: Step) { step.Deliver? && step.revision > t.workspace.revision }

  /** The phase comes to be one exactly by these steps. */
  lemma PhaseComesExactlyWhen(s: System, step: Step)
    requires Enabled(s, step)
    ensures var t, t' := s.tabs[step.tab], TabAfter(s, step);
      && (t.phase != PhaseSaved ==>
            (t'.phase == PhaseSaved <==> Confirms(t, step) || RestoreBringsWork(t, step) || TakesOver(t, step)))
      && (t.phase != Saving ==>
            (t'.phase == Saving <==> step.Edit? || (step.RetryStep? && t.dirty) || FindsNothing(t, step)))
      && (t.phase != Restoring ==> (t'.phase == Restoring <==> step.RetryStep? && !t.dirty))
      && (t.phase != RecoveryPhase ==> (t'.phase == RecoveryPhase <==> RestoreAsksForRecovery(t, step)))
  {
  }

  /** A tab comes to show that its work is only in memory exactly when its latest save is refused or
      fails, when a restoring load fails, or when a newer revision is announced over unsaved work. */
  lemma MemoryOnlyExactlyWhen(s: System, step: Step)
    requires Enabled(s, step) && s.tabs[step.tab].phase != MemoryOnly
    ensures var t := s.tabs[step.tab];
      TabAfter(s, step).phase == MemoryOnly <==>
        (HearsLatest(t, step) && t.saves[step.call].outcome != SaveDone(Saved)) ||
        (RestoreSays(t, step, LoadFailed) && (t.mounted || t.loads[step.call].kind == RetryLoad)) ||
        (HearsNewer(t, step) && t.dirty)
  {
  }

  /** Work becomes unsaved by an edit or by falling back to the default, and counts as saved again
      exactly when its save is confirmed or a restoring load replaces it or asks for recovery. */
  lemma DirtyChangesExactlyWhen(s: System, step: Step)
    requires Enabled(s, step)
    ensures var t, t' := s.tabs[step.tab], TabAfter(s, step);
      && (!t.dirty ==> (t'.dirty <==> step.Edit? || FindsNothing(t, step)))
      && (t.dirty ==>
            (!t'.dirty <==> Confirms(t, step) || RestoreBringsWork(t, step) || RestoreAsksForRecovery(t, step)))
  {
  }

  /** The reason for recovery is shown from the load that gives it until an edit or a restoring load. */
  lemma RecoveryShownExactly(s: System, step: Step)
    requires Enabled(s, step)
    ensures var t, t' := s.tabs[step.tab], TabAfter(s, step);
      && (t'.recovery.None? <==>
            step.Edit? || RestoreBringsWork(t, step) || FindsNothing(t, step) ||
            (t.recovery.None? && !RestoreAsksForRecovery(t, step)))
      && (t'.recovery.Some? ==>
            t'.recovery == t.recovery || RestoreSays(t, step, LoadDone(RecoveryRequired(t'.recovery.value))))
      && (RestoreAsksForRecovery(t, step) ==>
            t'.recovery.Some? && RestoreSays(t, step, LoadDone(RecoveryRequired(t'.recovery.value))))
  {
  }

  /** The timer is set by debounced edits only, to what was edited, and cleared by everything that saves
      at once for the phase, by firing and by closing. */
  lemma TimerChangesExactlyWhen(s: System, step: Step)
    requires Enabled(s, step)
    ensures var t, t' := s.tabs[step.tab], TabAfter(s, step);
      && (step.Edit? && !step.immediate ==> t'.timer == Some(step.workspace))
      && (t'.timer.None? <==>
            (step.Edit? && step.immediate) || (step.RetryStep? && t.dirty) || FindsNothing(t, step) ||
            step.TimerStep? || step.Close? || (t.timer.None? && !step.Edit?))
      && (t'.timer.Some? ==> t'.timer == t.timer || (step.Edit? && t'.timer == Some(step.workspace)))
  {
  }

  /** A save is sent exactly by a firing timer, with what it was set for, and by immediate edits, hiding or
      retrying with unsaved work, and falling back to the default, with the workspace the tab is then on. */
  lemma SaveSentExactlyWhen(s: System, step: Step)
    requires Enabled(s, step)
    ensures var t, t' := s.tabs[step.tab], TabAfter(s, step);
      var sends := step.TimerStep? || (step.Edit? && step.immediate) || FindsNothing(t, step) ||
        ((step.PageHide? || step.RetryStep?) && t.dirty);
      t'.sequence == t.sequence + (if sends then 1 else 0) &&
      (sends ==>
         var snapshot := if step.TimerStep? then t.timer.value else t'.workspace;
         t'.saves == t.saves[t'.sequence := SaveCall(snapshot, SavePending)])
  {
  }

  /** A load is started exactly by a retry without unsaved work and by newer announcements to such a tab. */
  lemma LoadStartedExactlyWhen(s: System, step: Step)
    requires Enabled(s, step)
    ensures var t, t' := s.tabs[step.tab], TabAfter(s, step);
      var starts := !t.dirty && (step.RetryStep? || HearsNewer(t, step));
      t'.nextLoad == t.nextLoad + (if starts then 1 else 0) &&
      (starts ==>
         t'.loads == t.loads[t.nextLoad := LoadCall(if step.RetryStep? then RetryLoad else BroadcastLoad, LoadPending)])
  {
  }

  /** Work changes hands only so: by the user, by a restoring load, or by taking newer work over. */
  lemma WorkspaceChangesTo(s: System, step: Step)
    requires Enabled(s, step)
    ensures var t, w := s.tabs[step.tab], TabAfter(s, step).workspace;
      if step.Edit? then w == step.workspace
      else if FindsNothing(t, step) then w == t.initial
      else if RestoreBringsWork(t, step) || TakesOver(t, step) then t.loads[step.call].outcome == LoadDone(Ready(w))
      else w == t.workspace
  {
  }

  /** A confirmed save is announced, once, and nothing else is; a closed tab stays closed. */
  lemma AnnouncedExactlyWhen(s: System, step: Step)
    requires Enabled(s, step)
    ensures var t, t' := s.tabs[step.tab], TabAfter(s, step);
      && t'.posted == t.posted + (if Confirms(t, step) then [t.workspace.revision] else [])
      && (t'.mounted <==> t.mounted && !step.Close?)
  {
  }

  /** Work that is asked to be recovered is clean and has its reason shown, over every run. */
  ghost predicate RecoveryExplained(s: System) {
    forall i :: i in s.tabs && s.tabs[i].phase == RecoveryPhase ==> s.tabs[i].recovery.Some? && !s.tabs[i].dirty
  }

  lemma {:induction false} RecoveryIsExplained(s: System, steps: seq<Step>)
    requires RecoveryExplained(s) && Possible(s, steps)
    ensures RecoveryExplained(Outcome(s, steps))
    decreases |steps|
  {
    if steps != [] {
      PhaseComesExactlyWhen(s, steps[0]);
      DirtyChangesExactlyWhen(s, steps[0]);
      RecoveryShownExactly(s, steps[0]);
      EditLeavesRecovery(s, steps[0]);
      hide TabAfter, RecordAfter;
      RecoveryIsExplained(After(s, steps[0]), steps[1..]);
    }
  }

  lemma EditLeavesRecovery(s: System, step: Step)
    requires Enabled(s, step)
    ensures step.Edit? || FindsNothing(s.tabs[step.tab], step) ==> TabAfter(s, step).phase == Saving
    ensures RestoreBringsWork(s.tabs[step.tab], step) ==> TabAfter(s, step).phase == PhaseSaved
  {
  }
}
