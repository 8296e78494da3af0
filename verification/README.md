# Modelable: models and proofs

This project models the parts of Modelable whose behaviour is hardest to see from one function
body, and proves what they promise. Each module follows a source file, or one side of it.

- **Concurrent protocols of the playground.** `PersistentWorkspace` and `PersistenceProtocol` model
  tabs that save a workspace to IndexedDB with a compare-and-put transaction and announce saves to
  each other. `LanguageServices` and `LanguageProtocol` model the controller and compiler that keep
  language answers at the observed revision. `PersistenceProgress` and `LanguageProgress` prove what
  these get done: edits are saved and diagnosed, questions answered. `Client` models the request
  bookkeeping beneath. A callback is one atomic step; what lies between two awaits is an outstanding
  call, and any interleaving of steps is a run. Of the store only serialised readwrite transactions are
  used (section 2.7, Transactions, of the W3C Indexed Database API 3.0).
- **Graph algorithms with a declarative meaning.** `FacetPropagation` and `FacetWorkspace` (memoised
  search with shadowing), with `FacetMeaning` (what it lists, in terms of the declarations),
  `PackageVersions` and `PackageResolution` (newest-match closure), `Migration` and `MigrationLineage`
  (cycle rejection, normal form, ancestors), `SpecGraphs`, `SpecImpact` and `StagedValidation` (cycles,
  delivery waves, impact, staged findings). `Graphs` holds walks, cycles and finishing orders.
- **Deterministic resolution.** `OverlaySelectors`, `Overlays` and `OverlayMeaning` (layering under Python's
  equality), `Paging` (self-checking cursors) over `CursorText` (UTF-8, and base64url of sections 3.2
  and 5 of RFC 4648).
- **Printers, parsers and meaning.** `Identity`, `Json`, `JsonText`, `JsonSchema` and
  `JsonSchemaMeaning` (keyword by keyword; objects without order, section 4 of RFC 8259), `Conversion`,
  `WorkspaceFiles`. `Text` and `Ordering` hold strings and the stable sort.

Where a promise fails, the code is kept as it is, a lemma shows a concrete input, and another says
exactly when the promise holds:

- A restoring load that settles late replaces unsaved edits and takes a tab's revision back
  (`LateInitialLoadDiscardsEdit`). For every run a revision never decreases exactly when no such load
  settles and no edit lowers it (`RevisionFallsExactlyWhen`, `NeverGoesBackExactly`), and unsaved work is
  kept exactly when no such load settles over it (`WorkDroppedExactlyWhen`, `KeptThroughoutExactly`).
  Both hold of runs in which no edit, no adoption and no second restoring load overtakes one (`Calm`).
- A tab that shows "saved" need not hold what is stored: of two tabs that reach one revision the second
  overwrites the first (`EqualRevisionsOverwrite`). For every run it does exactly when no other save of
  an equal or newer revision is stored over it and neither its latest save nor a load settles after the
  store has moved on (`AgreementEndsExactlyWhen`, `AgreesThroughoutExactly`); in calm runs of one tab it
  always does (`SavedMeansStored`).
- Constraint validation pads a bare `1` to 1.0.0 while matching takes it for any 1.x
  (`ShortExactVersionIsRejectedWrongly`), and accepts constraints that nothing matches
  (`CaretIsAcceptedWrongly`, `EmptyGapMatchesNothing`). Its verdict is right exactly by whether two
  parts have disjoint intervals (`RejectionIsRightExactly`, `AcceptanceIsRightExactly`).
- Version keys sort a pre-release above its release, unlike section 11 of Semantic Versioning 2.0.0, and
  agree with it on all other pairs (`PrereleaseSortsAboveRelease`, `KeyOrdersByPrecedenceExactly`). So a
  dependency resolves to the highest precedence exactly when the greatest core admitted is not given as
  a release and as a pre-release (`MatchPrefersPrerelease`, `MatchIsNewestByPrecedenceExactly`).
- A more specific overlay selector is not always narrower (`PathOutranksVersion`): of two that share a
  subject it is exactly when, should it name a path by wildcard or for several versions, its version
  bounds lie within the other's (`NarrowerExactly`, `VersionsWithinExactly`).
- The ultimate source of a migration edge is the least ancestor by text, not always a root
  (`UltimateNeedNotBeRoot`, `UltimateIsRootExactly`).
- Language answers are computed at the observed revision, but a workspace that reuses the accepted
  revision is not opened again (`SameRevisionOtherContent`): answers come from the observed content in
  every run exactly when a revision determines the content (`AnswersTheObservedExactly`).
- A retry of the language service may be refused as stale after a failure inside the compiler
  (`FirstOpenIsNotRetried`); it helps exactly when the first attempt never reached the compiler or
  succeeded there (`RetryHelpsExactly`). Otherwise nothing of that revision is shown until somebody moves
  on to a newer one (`FailedRevisionStaysDark`).
- Conversion classification compares names only, so a field read from a join counts as the source field
  of that name (`JoinedFieldCountsAsSource`, `LosslessExactly`).
- Overlay requests refuse declarations whose domain has a hyphen, which the identity grammar allows
  (`HyphenIsRefused`, `RequestsExactly`), and a selector bounded by `<0` is accepted and addresses nothing
  (`BelowZeroSelectsNothing`, `SelectsSomethingExactly`).
- A stored workspace with metadata is not read back (`MetadataIsNotReadBack`, `RecordRoundTrip`).
- A node that no edge touches is on no page as soon as the graph has edges (`IsolatedNodeIsOnNoPage`,
  `PagesAreTheGraph`).

Parameters stand for what the code cannot decide: which patterns compile and what they find, the value
and the text of a float's bits (assumed to read back as written, which `FaithfulFloatsExist` shows to be
possible), a digest without collisions, the order of `localeCompare`, fresh request identifiers, and
today's date.

## Model

| member | source | states |
|---|---|---|
| FacetPropagation.Resolver.Resolve | cli/src/modelable/facets.py:383-407 | the memoised search returns the facets of the unmemoised recursion, succeeds exactly when the subject reaches no dependency cycle, and on failure names a subject on a cycle the subject reaches; the set of subjects being resolved is restored |
| FacetPropagation.Resolver.ProjectedFacets | cli/src/modelable/facets.py:553-573 | the loop over dependencies collects the known facets that project, each re-attached to the subject with its source, from the resolved facets of every dependency |
| FacetPropagation.PlainFails | cli/src/modelable/facets.py:383-407 | resolving without a memo fails if and only if a dependency walk meets the stack or a cycle |
| FacetPropagation.PlainStackIrrelevant | cli/src/modelable/facets.py:383-407 | the facets of a subject do not depend on the order or stack under which it is visited, which is what makes the memo sound |
| FacetPropagation.FacetsUnfold | cli/src/modelable/facets.py:388-405 | without a cycle, a subject's facets are its explicit ones together with inherited and projected ones of other identities, sorted |
| FacetPropagation.FacetsAreShadowedReachability | cli/src/modelable/facets.py:388-405 | a facet is on a subject exactly when it is explicit there, inherited there unshadowed, or known, projecting and explicit at the end of a dependency walk none of whose earlier subjects has an explicit facet of its identity |
| FacetWorkspace.GraphSuccessors | cli/src/modelable/facets.py:539-563 | the dependency graph over all workspace subjects has exactly the successors that the projection lookup visits, also for subjects outside the workspace |
| FacetWorkspace.SourcesOnlyOfSubjects | cli/src/modelable/dependency_graph.py:42-86 | only projection fields of the workspace have dependencies |
| FacetWorkspace.ExplicitBySubject | cli/src/modelable/facets.py:420-433 | explicit facets are grouped by subject and sorted; refused exactly when a subject is missing or a subject has two facets of one identity |
| FacetWorkspace.NormalizeWorkspaceFacets | cli/src/modelable/facets.py:370-410 | succeeds exactly on well-formed workspaces none of whose subjects reaches a propagation cycle; a cycle error names a subject on a cycle |
| FacetWorkspace.NormalizedMeaning | cli/src/modelable/facets.py:370-410 | a facet is listed exactly when its subject is a workspace subject or carries an explicit facet, and the facet is explicit, inherited or arrives along an unshadowed dependency walk |
| FacetWorkspace.CanonicalInjective | cli/src/modelable/facets.py:119-121 | distinct subjects have distinct canonical texts, so sorting by them is a total order on subjects |
| FacetWorkspace.NormalizationIgnoresOrder | cli/src/modelable/facets.py:370-410 | listing the explicit facets in another order changes neither whether they are well formed, nor whether normalisation then succeeds, nor its result |
| FacetMeaning.LookupMeans | cli/src/modelable/facets.py:471-485 | lookups find exactly the first declaration of the name and version in the first domain of the name |
| FacetMeaning.EdgesAreReads | cli/src/modelable/dependency_graph.py:42-86 | facets travel from a property to a projection field exactly if an expression of the field reads the property through the alias's last resolved binding, the property's kind being that of its declaration |
| FacetMeaning.SourceSubjectText | cli/src/modelable/facets.py:560-565 | the source of a dependency is looked up under its kind, declaration, `#` and property |
| FacetMeaning.SourceExists | cli/src/modelable/facets.py:560-565 | a property that its declaration has is looked up under a subject that exists, a field for models and a projection field for projections |
| FacetMeaning.SourcesAreOrdered | cli/src/modelable/facets.py:556-559 | dependencies are visited by the text of declaration and property, once for each read |
| FacetMeaning.WorkspaceSubjectsAre | cli/src/modelable/facets.py:436-451 | the workspace subjects are its models, projections and their fields |
| FacetMeaning.SubjectExistsMeans | cli/src/modelable/facets.py:454-503 | a subject is accepted exactly if it is declared, fields down to any depth of nested object types, each segment without its container marker |
| FacetMeaning.FieldPathDescends | cli/src/modelable/facets.py:488-503 | a nested path exists exactly if fields lead down along its segments |
| FacetMeaning.BareSegment | cli/src/modelable/facets.py:494-496 | a segment is looked up as its identifier, whichever one container marker it ends in |
| FacetMeaning.AncestorsEnclose | cli/src/modelable/facets.py:526-536 | a field inherits from its model and the fields it is nested in, a projected field from its projection |
| FacetMeaning.ReadFacetsAreListed | cli/src/modelable/facets.py:370-410 | every known projecting facet stated about a property is listed, with its source, on each projection field that reads it and states none of that identity |
| FacetMeaning.DirectFieldCarries | cli/src/modelable/facets.py:553-573 | in an accepted workspace a projection field that maps a model field directly lists each known projecting facet stated about that field, unless it states one of the identity |
| FacetMeaning.EnclosingFacetsAreListed | cli/src/modelable/facets.py:506-523 | every known inheriting facet stated about an enclosing subject is listed on the subject, unless that states one of the identity |
| FacetMeaning.FacetsForSubject | cli/src/modelable/facets.py:413-417 | the normalised facets are sorted, and filtered to one subject they are exactly that subject's resolved facets, once |
| FacetMeaning.FacetsAreOrdered | cli/src/modelable/facets.py:592-597 | facets are sorted by the texts of subject, identity and source |
| FacetMeaning.SubjectTexts | cli/src/modelable/facets.py:119-121 | the canonical text of each kind of subject |
| Json.CanonicalIdempotent | cli/src/modelable/facets.py:663-669 | canonicalising twice is canonicalising once |
| Json.CanonicalDecidesSameness | cli/src/modelable/facets.py:663-669 | two values have one canonical form if and only if they are equal up to the order of object members at every depth |
| JsonText.TextDecidesSameness | cli/src/modelable/facets.py:672-673 | two values have one canonical text if and only if they are equal up to member order at every depth |
| JsonText.LoadsOfDumps | cli/src/modelable/query_service.py:340-345 | reading back compact sorted text, escaped to ASCII or not, gives the value with its members in key order |
| JsonText.CompactText | cli/src/modelable/query_service.py:340-345 | lists and objects are written without spaces, their parts between commas |
| JsonText.EscapedExactly | cli/src/modelable/facets.py:672-673 | quotes, backslashes and controls are always escaped, everything beyond printable ASCII exactly if asked |
| JsonSchema.CheckTypes | cli/src/modelable/facets.py:739-753 | accepts a known type name or a non-empty list of distinct known ones; counting distinct names finds repeats |
| JsonSchema.CheckEnum | cli/src/modelable/facets.py:684-690 | accepts non-empty choices of which no two have one canonical form; counting distinct canonical forms finds repeats |
| JsonSchema.CheckRequired | cli/src/modelable/facets.py:699-704 | accepts lists of distinct non-empty names |
| JsonSchema.ValidateSchema | cli/src/modelable/facets.py:676-767 | passes exactly the schemas all of whose levels use known keywords with proper values, beside a type they apply to |
| JsonSchema.ValidateProperties | cli/src/modelable/facets.py:692-698 | passes exactly the declared properties with non-empty names and accepted schemas |
| JsonSchema.ValidateValue | cli/src/modelable/facets.py:770-810 | passes exactly the values that satisfy type, choices, members, sizes, range and pattern at every level the schema describes |
| JsonSchema.VerdictIgnoresMemberOrder | cli/src/modelable/facets.py:770-810 | a value passes a schema exactly when any reordering of its members passes any reordering of the schema's |
| JsonSchema.AcceptanceIgnoresMemberOrder | cli/src/modelable/facets.py:676-767 | whether a schema is accepted does not depend on the order of its members at any depth |
| JsonSchema.OneChoice | cli/src/modelable/facets.py:684-690 | a value that passes an accepted schema with choices is the same as exactly one of them |
| JsonSchemaMeaning.TypeMeans | cli/src/modelable/facets.py:813-825 | a type name admits exactly the values of its kind, and number the integers too |
| JsonSchemaMeaning.TypesMean | cli/src/modelable/facets.py:770-774 | a list of type names admits what one of them does |
| JsonSchemaMeaning.ConstMeans | cli/src/modelable/facets.py:775-776 | a constant admits exactly the same value up to member order |
| JsonSchemaMeaning.EnumMeans | cli/src/modelable/facets.py:777-780 | choices admit exactly what is the same as one of them up to member order |
| JsonSchemaMeaning.RangeMeans | cli/src/modelable/facets.py:801-805 | a minimum and a maximum bound numbers only, from below and from above, themselves included |
| JsonSchemaMeaning.SizeMeans | cli/src/modelable/facets.py:791-795 | sizes bound lists only, themselves included |
| JsonSchemaMeaning.PatternMeans | cli/src/modelable/facets.py:806-809 | a pattern must be found in texts, and demands nothing of other values |
| JsonSchemaMeaning.ItemsMean | cli/src/modelable/facets.py:796-799 | the schema of items applies to every item of a list |
| JsonSchemaMeaning.RequiredMeans | cli/src/modelable/facets.py:782-786 | required names must be members of an object |
| JsonSchemaMeaning.PropertiesMean | cli/src/modelable/facets.py:787-791 | properties constrain the members of their names, and others are free unless additional ones are ruled out |
| JsonSchemaMeaning.TypeAccepted | cli/src/modelable/facets.py:739-753 | a type is one of the seven names or a list of some of them without repeats |
| JsonSchemaMeaning.UnknownKeywordRefused | cli/src/modelable/facets.py:676-679 | a schema with any other word than the twelve keywords is refused |
| JsonSchemaMeaning.BoundsAcceptedExactly | cli/src/modelable/facets.py:719-727 | bounds are numbers, the lower not above the upper |
| JsonSchemaMeaning.SizesAcceptedExactly | cli/src/modelable/facets.py:709-718 | sizes are natural numbers, the lower not above the upper |
| JsonSchemaMeaning.PatternAcceptedExactly | cli/src/modelable/facets.py:728-735 | a pattern is a text that compiles |
| JsonSchemaMeaning.ChoicesAcceptedExactly | cli/src/modelable/facets.py:682-706 | any constant is accepted, and additional properties are a truth value |
| JsonSchemaMeaning.ListsAcceptedExactly | cli/src/modelable/facets.py:684-704 | choices are some, no two the same up to member order; required names are texts, none empty and none twice |
| JsonSchemaMeaning.ChildrenAcceptedExactly | cli/src/modelable/facets.py:692-708 | items and properties have accepted schemas, properties non-empty names |
| JsonSchemaMeaning.ObjectKeywordsOfType | cli/src/modelable/facets.py:756-760 | beside a type, object keywords are accepted for objects only |
| JsonSchemaMeaning.ListKeywordsOfType | cli/src/modelable/facets.py:761-762 | beside a type, list keywords are accepted for lists only |
| JsonSchemaMeaning.ScalarKeywordsOfType | cli/src/modelable/facets.py:763-766 | beside a type, bounds are accepted for numbers and patterns for texts only |
| PersistentWorkspace.Repository.Load | web/src/workspace-repository.ts:39-66 | the read transaction answers missing, the parsed workspace or recovery, by what the store holds |
| PersistentWorkspace.Repository.Save | web/src/workspace-repository.ts:68-95 | the compare-and-put transaction refuses exactly when the stored revision is newer, and otherwise stores the snapshot, equal revisions included |
| PersistentWorkspace.SavesCommuteExactly | web/src/workspace-repository.ts:76-91 | two saves give one record in either order if and only if they are the same, differ in revision or are both too old |
| PersistentWorkspace.SaveIsReadBackExactly | web/src/workspace-repository.ts:39-95 | a load after a save gives the saved workspace if and only if the save was accepted, the revision is positive and there is no metadata |
| PersistentWorkspace.LastOfTheNewestWins | web/src/workspace-repository.ts:76-91 | after any sequence of saves the store holds the last of the newest of them, or the old record if that is newer than all |
| PersistentWorkspace.Hook.Save | web/src/usePersistentWorkspace.ts:53-58 | a save takes the next sequence number and remembers the snapshot it sent |
| PersistentWorkspace.Hook.SaveSettled | web/src/usePersistentWorkspace.ts:58-83 | only the latest save changes the phase; it becomes saved, and is announced, only when the current revision is the one that was sent |
| PersistentWorkspace.Hook.Schedule | web/src/usePersistentWorkspace.ts:88-105 | an immediate save starts at once and cancels the timer; a debounced one replaces the pending timer |
| PersistentWorkspace.Hook.ApplyLoaded | web/src/usePersistentWorkspace.ts:107-128 | a restoring load installs the stored workspace, or the default which is then saved at once, or enters recovery |
| PersistentWorkspace.Hook.LoadSettled | web/src/usePersistentWorkspace.ts:107-181 | a restoring load is applied whatever the tab holds; a broadcast load only to a clean, mounted tab with an older revision |
| PersistentWorkspace.Hook.OnMessage | web/src/usePersistentWorkspace.ts:153-167 | an announcement of a newer revision marks a dirty tab unsaved and makes a clean one load |
| PersistentWorkspace.Hook.HandlePageHide | web/src/usePersistentWorkspace.ts:190-194 | hiding the page saves unsaved work at once |
| PersistentWorkspace.Hook.ReplaceWith | web/src/usePersistentWorkspace.ts:199-211 | an edit replaces the workspace, marks it unsaved and schedules its save |
| PersistentWorkspace.Hook.RetryStorage | web/src/usePersistentWorkspace.ts:213-229 | a retry saves unsaved work or starts a restoring load |
| PersistenceProtocol.RecordNeverGoesBack | web/src/workspace-repository.ts:76-91 | no step of any number of tabs makes the stored revision smaller |
| PersistenceProtocol.SavedNeverAheadOfStore | web/src/usePersistentWorkspace.ts:53-105 | over every run of any number of tabs, a tab in phase saved never has a revision above the stored one, and the stored revision never decreases |
| PersistenceProtocol.EditLostExactlyWhen | web/src/usePersistentWorkspace.ts:107-128 | apart from an edit, a step replaces unsaved work if and only if it settles a restoring load over it; broadcast loads never do |
| PersistenceProtocol.RevisionFallsExactlyWhen | web/src/usePersistentWorkspace.ts:107-211 | in any state, a step lowers a tab's revision, dirty or clean, if and only if it is that tab's edit to a lower one or the settling of a restoring load that brings a lower stored revision or the default |
| PersistenceProtocol.NeverGoesBackExactly | web/src/usePersistentWorkspace.ts:107-211 | over every possible run, calm or not, a tab's revision never decreases if and only if no step of the run takes it back so |
| PersistenceProtocol.EditBeforeRestoreGoesBack | web/src/usePersistentWorkspace.ts:107-143 | while a restoring load with something to bring is outstanding, any edit above what it brings can be followed by steps without an edit that take the tab back below it |
| PersistenceProtocol.WorkDroppedExactlyWhen | web/src/usePersistentWorkspace.ts:107-128 | unsaved work that no store has is dropped by a step other than the next edit if and only if the step settles a restoring load over it |
| PersistenceProtocol.KeptThroughoutExactly | web/src/usePersistentWorkspace.ts:107-187 | over every possible run until the tab's next edit, calm or not, unsaved work is at every moment in the tab or caught up with by the store, if and only if no step so discards it |
| PersistenceProtocol.RevisionsNeverGoBack | web/src/usePersistentWorkspace.ts:145-187 | over runs in which nothing overtakes a restoring load, no tab's revision ever decreases |
| PersistenceProtocol.UnsavedWorkIsNeverLost | web/src/usePersistentWorkspace.ts:145-187 | over the same runs, unsaved work stays in its tab, edits during a load included, until the store holds a revision at least as new |
| PersistenceProtocol.SavedMeansStored | web/src/usePersistentWorkspace.ts:53-105 | one tab, any order of debounced, immediate and page-hide saves that commit or answer late: in phase saved the store holds exactly the tab's workspace |
| PersistenceProtocol.StartIsExact | web/src/usePersistentWorkspace.ts:42-51 | a freshly opened single tab satisfies what SavedMeansStored starts from |
| PersistenceProtocol.AgreementEndsExactlyWhen | web/src/usePersistentWorkspace.ts:53-187 | in any state, a step makes a tab show saved without the store holding its workspace if and only if another save of equal or newer revision is stored over it, or its latest save or a load settles when the store has moved on |
| PersistenceProtocol.AgreesThroughoutExactly | web/src/usePersistentWorkspace.ts:53-187 | over every possible run of any tabs, calm or not, saved means stored at every moment if and only if no step of the run breaks it so |
| PersistenceProtocol.StartAgrees | web/src/usePersistentWorkspace.ts:42-51 | freshly opened tabs satisfy what AgreesThroughoutExactly starts from |
| PersistenceProtocol.EqualRevisionsOverwrite | web/src/workspace-repository.ts:76-91 | a concrete calm run in which a second tab stores its own revision 3 over that of a first tab, which still shows saved |
| PersistenceProtocol.StartIsHonest | web/src/usePersistentWorkspace.ts:42-51 | freshly opened tabs satisfy what SavedNeverAheadOfStore starts from |
| PersistenceProtocol.StartIsOrdered | web/src/usePersistentWorkspace.ts:42-51 | freshly opened tabs satisfy what RevisionsNeverGoBack and UnsavedWorkIsNeverLost start from |
| PersistenceProtocol.LateInitialLoadDiscardsEdit | web/src/usePersistentWorkspace.ts:107-143 | a concrete run in which an initial load that settles late discards an unsaved edit, takes the tab from revision 4 back to 2 and shows saved while the store holds 3 |
| PersistenceProgress.SavingIsUnderWay | web/src/usePersistentWorkspace.ts:53-105 | over every possible run of any tabs, a mounted tab in phase saving has its timer set for its workspace or an unheard latest save of it |
| PersistenceProgress.StartIsUnderWay | web/src/usePersistentWorkspace.ts:42-51 | freshly opened tabs satisfy what SavingIsUnderWay starts from |
| PersistenceProgress.DebouncedEditLands | web/src/usePersistentWorkspace.ts:88-105 | in any state, a debounced edit whose timer fires and whose save commits and settles is stored, shown as saved and announced, or refused as stale and shown as only in memory, exactly by the stored revision |
| PersistenceProgress.ImmediateEditLands | web/src/usePersistentWorkspace.ts:88-98 | the same of an immediate edit, which leaves no timer behind |
| PersistenceProgress.UnsavedWorkLands | web/src/usePersistentWorkspace.ts:190-217 | the same of unsaved work when the page is hidden or storage retried |
| PersistenceProgress.OpeningRestores | web/src/usePersistentWorkspace.ts:107-143 | opening a tab brings it what the store holds, sends its default if the store is empty, or asks for recovery with the reason |
| PersistenceProgress.RetryRestores | web/src/usePersistentWorkspace.ts:213-222 | a retry without unsaved work brings what the store holds |
| PersistenceProgress.AnnouncementArrives | web/src/usePersistentWorkspace.ts:153-187 | a newer announcement makes a clean tab take the stored workspace over and a dirty one show that its work is not saved; any other changes nothing |
| PersistenceProgress.PhaseComesExactlyWhen | web/src/usePersistentWorkspace.ts:53-229 | in any state, the steps that bring a tab to saved, saving, restoring or recovery, each if and only if |
| PersistenceProgress.MemoryOnlyExactlyWhen | web/src/usePersistentWorkspace.ts:61-83 | a tab comes to show memory only if and only if its latest save is refused or fails, a restoring load fails, or a newer revision is announced over unsaved work |
| PersistenceProgress.DirtyChangesExactlyWhen | web/src/usePersistentWorkspace.ts:53-211 | when work becomes unsaved and when it counts as saved again, each if and only if |
| PersistenceProgress.RecoveryShownExactly | web/src/usePersistentWorkspace.ts:107-128 | the reason for recovery is shown from the load that gives it until an edit or a restoring load |
| PersistenceProgress.TimerChangesExactlyWhen | web/src/usePersistentWorkspace.ts:88-105 | the timer is set by debounced edits only and cleared exactly by immediate saves, firing and closing |
| PersistenceProgress.SaveSentExactlyWhen | web/src/usePersistentWorkspace.ts:53-229 | a save is sent exactly by a firing timer, an immediate edit, hiding or retrying with unsaved work and falling back to the default, and of which workspace |
| PersistenceProgress.LoadStartedExactlyWhen | web/src/usePersistentWorkspace.ts:130-229 | a load is started exactly by a retry without unsaved work and by newer announcements to such a tab |
| PersistenceProgress.WorkspaceChangesTo | web/src/usePersistentWorkspace.ts:107-211 | a tab's workspace changes only by an edit, a restoring load or taking newer work over, and to what |
| PersistenceProgress.AnnouncedExactlyWhen | web/src/usePersistentWorkspace.ts:69-81 | exactly confirmed saves are announced, once |
| PersistenceProgress.RecoveryIsExplained | web/src/usePersistentWorkspace.ts:107-128 | over every run, a tab asking for recovery shows a reason and has no unsaved work |
| PackageVersions.VersionOrder | cli/src/modelable/package_manifest.py:207-214 | version keys are a total order: cores first, then pre-release identifiers with numbers below words |
| PackageVersions.KeyOrdersByPrecedenceExactly | cli/src/modelable/package_manifest.py:207-214 | two versions are ordered by key as by SemVer precedence if and only if they are not a release and a pre-release of one core, whose order the key reverses |
| PackageVersions.PrereleaseSortsAboveRelease | cli/src/modelable/package_manifest.py:165-214 | the key sorts 1.0.0-alpha above 1.0.0, and `>=1.0.0` admits it |
| PackageVersions.OperatorsMean | cli/src/modelable/package_manifest.py:174-199 | a caret keeps the major number and is not older, a tilde keeps major and minor, a bare version fixes the components it spells |
| PackageVersions.ComparisonsMean | cli/src/modelable/package_manifest.py:174-192 | the comparisons on the numbers spelled, padded with zeros |
| PackageVersions.CoreOrderMeans | cli/src/modelable/package_manifest.py:217-227 | cores are compared by their first differing component, major before minor before patch |
| PackageVersions.AnythingMatchesAll | cli/src/modelable/package_manifest.py:168-169 | `*` matches every version |
| PackageVersions.AllOfMeans | cli/src/modelable/package_manifest.py:170-173 | a constraint matches exactly what all of its parts do, and nothing if a part is malformed |
| PackageVersions.IdentifiersAreOrdered | cli/src/modelable/package_manifest.py:207-214 | pre-release identifiers: numbers by value, before words, words by text |
| PackageVersions.VersionTextExample | cli/src/modelable/package_manifest.py:203-204 | how a version with and without pre-release identifiers is written |
| PackageVersions.PrecedenceExample | cli/src/modelable/package_manifest.py:207-214 | the precedence used for comparison orders the example of section 11 of Semantic Versioning 2.0.0 |
| PackageVersions.AdmittedCoresAreConvex | cli/src/modelable/package_manifest.py:165-200 | what a constraint admits depends on the version core only and has no gaps: between two matching cores every version matches |
| PackageVersions.ValidateConstraint | cli/src/modelable/package_manifest.py:299-330 | the tightest-bound loop rejects exactly the malformed constraints and those in which some lower and some upper bound clash |
| PackageVersions.PartIsItsInterval | cli/src/modelable/package_manifest.py:174-199 | every well-formed part, caret, tilde and short exact versions included, admits exactly a half-open interval of cores |
| PackageVersions.SatisfiableExactly | cli/src/modelable/package_manifest.py:165-200 | some version matches a well-formed constraint if and only if no part's interval ends at or before the beginning of another's |
| PackageVersions.RejectionIsRightExactly | cli/src/modelable/package_manifest.py:325-330 | a constraint rejected as contradictory is matched by no version if and only if two of its parts have such disjoint intervals |
| PackageVersions.AcceptanceIsRightExactly | cli/src/modelable/package_manifest.py:325-330 | a constraint that is not rejected is matched by some version if and only if no two of its parts have disjoint intervals |
| PackageVersions.ShortExactVersionIsRejectedWrongly | cli/src/modelable/package_manifest.py:317-324 | `1,>=1.5.0` is rejected as contradictory although 1.6.0 matches it |
| PackageVersions.CaretIsAcceptedWrongly | cli/src/modelable/package_manifest.py:315-316 | `^1.0.0,>=2.0.0` is accepted although no version matches it |
| PackageVersions.ContradictoryMatchesNothing | cli/src/modelable/package_manifest.py:325-330 | a constraint rejected as contradictory whose bare versions have three components is matched by no version |
| PackageVersions.EmptyGapMatchesNothing | cli/src/modelable/package_manifest.py:325-330 | strict neighbours such as `>1.2.3,<1.2.4`, and `<0.0.0`, match no version although they are accepted |
| PackageVersions.ComparisonsErrByEmptyGaps | cli/src/modelable/package_manifest.py:299-330 | for comparisons and three-component exact versions some version matches if and only if the constraint is not contradictory and has no such gap |
| PackageResolution.MatchIsNewest | cli/src/modelable/package_manifest.py:135-143 | a dependency resolves to the newest satisfying candidate of its name, and to none only when none satisfies it |
| PackageResolution.AnythingResolvesToNewest | cli/src/modelable/package_manifest.py:134-143 | a dependency on `*` resolves exactly if a candidate has its name, and then to the newest of them |
| PackageResolution.RootsAreNewest | cli/src/modelable/package_manifest.py:154-156 | the search starts from the newest version of each name |
| PackageResolution.DependenciesAreMatches | cli/src/modelable/package_manifest.py:133-152 | a package is recorded to depend on exactly what its dependencies resolve to |
| PackageResolution.ListedInOrder | cli/src/modelable/package_manifest.py:152-162 | manifests are listed by name and version, dependencies by the text of their identity |
| PackageResolution.MatchIsNewestByPrecedenceExactly | cli/src/modelable/package_manifest.py:112-143 | what a dependency resolves to has the highest SemVer precedence of all candidates admitted if and only if their greatest core is not given both as a release and as a pre-release |
| PackageResolution.MatchPrefersPrerelease | cli/src/modelable/package_manifest.py:112-143 | of the candidates 1.0.0 and 1.0.0-alpha, `>=1.0.0` resolves to the pre-release |
| PackageResolution.GroupByName | cli/src/modelable/package_manifest.py:112-114 | candidates are grouped by name in the order given |
| PackageResolution.SortCandidates | cli/src/modelable/package_manifest.py:115-119 | every name's candidates are sorted newest first; refused exactly when a version of a name is given twice |
| PackageResolution.Resolver.Visit | cli/src/modelable/package_manifest.py:125-152 | a visit selects its manifest after everything it depends on and nothing it does not reach; a failure means a reachable cycle or unsatisfied dependency |
| PackageResolution.Resolver.VisitDependencies | cli/src/modelable/package_manifest.py:133-149 | the loop resolves each dependency to its newest match and lists their identities |
| PackageResolution.ResolvePackageManifests | cli/src/modelable/package_manifest.py:110-162 | succeeds exactly when identities are unique and no newest version reaches a cycle or an unsatisfied dependency; the result is then exactly the set reached, sorted, with sorted dependency lists |
| PackageResolution.ClosureIsClosed | cli/src/modelable/package_manifest.py:134-152 | every dependency of a selected manifest is selected as its newest match, and no selected manifest reaches a cycle |
| PackageResolution.ResolutionUnique | cli/src/modelable/package_manifest.py:157-162 | candidates have only one resolution |
| PackageResolution.ResolutionIgnoresOrder | cli/src/modelable/package_manifest.py:110-162 | the order of the candidates decides neither whether identities are unique, nor whether resolution then succeeds, nor the result |
| LanguageServices.BrowserCompiler.OpenWorkspace | cli/src/modelable/browser/api.py:191-222 | an open is refused as stale below the current revision, answers an equal revision from the last result if the content is the same, and otherwise synchronises to the new revision and sources; a failure while synchronising, or later with the facet fingerprint already taken over, leaves the last result old |
| LanguageServices.BrowserCompiler.ReopenCurrentWorkspace | cli/src/modelable/browser/api.py:224-241 | an equal revision is answered only for equal content hashes and facet fingerprint and an existing result |
| LanguageServices.LanguageController.ObserveWorkspace | web/src/language/BrowserLanguageServiceController.ts:42-52 | observing remembers the workspace and restarts the timer, unless disposed |
| LanguageServices.LanguageController.Synchronize | web/src/language/BrowserLanguageServiceController.ts:54-86 | each turn of the loop returns, waits for the call in flight, or starts a call for the observed workspace |
| LanguageServices.LanguageController.OpenSettled | web/src/language/BrowserLanguageServiceController.ts:219-253 | a settled open is accepted only at its own revision and shown only if that is still the one observed |
| LanguageServices.LanguageController.FlightFinished | web/src/language/BrowserLanguageServiceController.ts:79-83 | the slot for the call in flight is freed only by the call that holds it |
| LanguageServices.OpenRepliesExactly | cli/src/modelable/browser/api.py:191-241 | invalid, stale, failed or answered, each exactly when, with the answer |
| LanguageServices.OpenTakesOverExactly | cli/src/modelable/browser/api.py:205-222 | an open of a newer revision takes revision and sources over, also when it fails, and any other open leaves the compiler as it is |
| LanguageServices.MalformedExactly | cli/src/modelable/browser/api.py:86-94 | sources are refused exactly if there are none, a URI occurs twice by count, or a version is not positive |
| LanguageServices.HashesMean | cli/src/modelable/browser/api.py:228-232 | the hashes of sources pair each URI with its text |
| LanguageServices.SettlesExactly | web/src/language/BrowserLanguageServiceController.ts:219-253 | when a settled open is accepted, shown or reported as a failure, each if and only if |
| LanguageServices.TurnsExactly | web/src/language/BrowserLanguageServiceController.ts:62-72 | when the loop starts an open and when it waits for one, each if and only if |
| LanguageServices.EnteringClearsTimerExactly | web/src/language/BrowserLanguageServiceController.ts:54-62 | synchronising clears the timer exactly for the revision still observed |
| LanguageServices.DisposalIsFinal | web/src/language/BrowserLanguageServiceController.ts:42-52 | disposal clears the timer and nothing observed later sets it |
| LanguageProtocol.SingleFlightKept | web/src/language/BrowserLanguageServiceController.ts:54-86 | every step keeps the facts that make opens single-flight |
| LanguageProtocol.AtMostOneOpen | web/src/language/BrowserLanguageServiceController.ts:69-83 | at most one open issued by the controller is unsettled |
| LanguageProtocol.DeliveriesAreTrue | web/src/language/BrowserLanguageServiceController.ts:171-253 | over every interleaving of edits, completions, stale errors and disposal: one open at a time, the accepted revision never above the compiler's, every delivery true |
| LanguageProtocol.DeliveredAtObservedRevision | web/src/language/BrowserLanguageServiceController.ts:171-253 | from the start, every language result and diagnostics set delivered was computed by the compiler at exactly the revision observed at delivery |
| LanguageProtocol.AnswersTheObservedExactly | web/src/language/BrowserLanguageServiceController.ts:54-253 | over the workspaces admitted, every delivery of every run was computed from exactly the sources observed if and only if a revision determines the content |
| LanguageProtocol.DeliveredFromObservedSources | cli/src/modelable/browser/api.py:224-241 | in particular, if each revision has the content given for it, every delivery was computed from exactly the sources observed |
| LanguageProtocol.AcceptFirst | web/src/language/BrowserLanguageServiceController.ts:219-240 | a concrete run in which the controller opens the observed workspace and accepts it |
| LanguageProtocol.SameRevisionOtherContent | web/src/language/BrowserLanguageServiceController.ts:200-217 | from there, a workspace with the accepted revision and other content is not opened again, and a request made on it delivers an answer computed from the first one's content |
| LanguageProtocol.SilentAfterDisposal | web/src/language/BrowserLanguageServiceController.ts:162-169 | nothing is delivered after disposal, which is final |
| LanguageProgress.EditsAreDiagnosed | web/src/language/BrowserLanguageServiceController.ts:42-83 | in any reachable state with nothing in flight, an edit to a newer workspace is followed by its own diagnostics through the timer alone |
| LanguageProgress.EveryEditIsDiagnosed | web/src/language/BrowserLanguageServiceController.ts:42-83 | however many edits follow one another, each is diagnosed from its own content in order, because the place for the call in flight is freed every time |
| LanguageProgress.WaitingEditIsDiagnosed | web/src/language/BrowserLanguageServiceController.ts:62-83 | an edit made while an older workspace is being opened waits for that and is then opened and diagnosed, and the older diagnostics are not shown |
| LanguageProgress.LostOpenIsRetried | web/src/language/BrowserLanguageServiceController.ts:150-160 | an open that fails before it reaches the compiler is reported, gives its place back, and is opened again by the next synchronisation |
| LanguageProgress.TurnsEndExactly | web/src/language/BrowserLanguageServiceController.ts:54-83 | a synchronisation ends exactly if nothing is left to do for its revision, and one that waits does not own the call it waits for |
| LanguageProgress.StartIsRested | web/src/language/BrowserLanguageServiceController.ts:36-41 | the initial state satisfies what EveryEditIsDiagnosed starts from |
| LanguageProgress.QuestionsAreAnswered | web/src/language/BrowserLanguageServiceController.ts:171-217 | a question about the workspace the compiler holds is answered from its content |
| LanguageProgress.QuestionsSynchronize | web/src/language/BrowserLanguageServiceController.ts:171-217 | a question about a newer observed workspace opens it first and is then answered from its content |
| LanguageProgress.QuestionsGoOnExactly | web/src/language/BrowserLanguageServiceController.ts:171-217 | a question goes on exactly if its workspace is still shown and accepted, and its answer is handed over exactly if it is then still shown |
| LanguageProgress.FailedQuestionsAreDropped | web/src/language/BrowserLanguageServiceController.ts:171-217 | a question that fails is dropped without a delivery |
| LanguageProgress.OthersMoveOn | cli/src/modelable/browser/api.py:191-222 | another client that opens a newer workspace moves the compiler on and leaves the controller as it is |
| LanguageServices.FailedOpenIsNotRetried | cli/src/modelable/browser/api.py:205-241 | after a failure while opening, the same revision is refused or answered with the old result, exactly by content and facet fingerprint; the compiler stays as it is and the controller ignores either reply |
| LanguageServices.RetryHelpsExactly | web/src/language/BrowserLanguageServiceController.ts:150-160 | asking again for a newer revision gets it accepted if and only if the first attempt never reached the compiler or succeeded there |
| LanguageServices.FirstOpenIsNotRetried | cli/src/modelable/browser/api.py:205-241 | a fresh compiler that fails in its first open refuses the same workspace as stale |
| LanguageProtocol.FailedOpenIsDark | cli/src/modelable/browser/api.py:205-222 | an open of a newer revision that fails in the compiler leaves the compiler at that revision without a result, and no answer of it under way |
| LanguageProtocol.FailedRevisionStaysDark | web/src/language/BrowserLanguageServiceController.ts:145-160 | from there, over every run in which nobody moves on to a newer revision, retries included, no result and no diagnostics of the revision are delivered |
| Client.BrowserCompilerClient.TransitionToTerminal | web/src/client.ts:532-544 | the first terminal error stops listening, rejects every pending request with it and forgets them; later ones do nothing |
| Client.BrowserCompilerClient.Message | web/src/client.ts:153-188 | a response settles the pending request it names, an unknown one is ignored, and an invalid response or result makes the client terminal |
| Client.BrowserCompilerClient.MakeRequest | web/src/client.ts:493-517 | a request is rejected at once by a terminal client and otherwise recorded as pending and posted |
| Client.BrowserCompilerClient.EnsureInitialized | web/src/client.ts:206-215 | only the first call posts the initialisation |
| Client.BrowserCompilerClient.BeginCall | web/src/client.ts:519-524 | a call starts initialisation and waits for it |
| Client.BrowserCompilerClient.ResumeCall | web/src/client.ts:524-526 | a waiting call posts its request once initialisation has succeeded and is rejected with its error once it has failed |
| Client.InvariantKept | web/src/client.ts:148-204 | every step keeps each issued request in exactly one place, with its own guard |
| Client.SettlesAtMostOnce | web/src/client.ts:148-204 | over any run an issued request is in exactly one of waiting, pending, resolved or rejected, stays settled as it was settled, and a resolved result passes its own guard |
| Client.TerminalIsFinal | web/src/client.ts:532-544 | once terminal, always terminal with the first error; nothing pending, nothing posted later, and what was pending has been rejected with that error |
| Client.TerminalRejectsWaiting | web/src/client.ts:519-526 | every call still waiting when the client is terminal can go on and is rejected without a post |
| Client.InitialisationFirst | web/src/client.ts:519-526 | no request is posted twice, and none but the initialisation before it has succeeded |
| Client.IgnoredMessages | web/src/client.ts:153-204 | a client that no longer listens ignores everything, one that does ignores messages about no pending request |
| Client.AnswersArrive | web/src/client.ts:165-188 | an answer its guard accepts resolves its request and an error rejects it, and nothing else changes |
| Client.FailuresEnd | web/src/client.ts:153-204 | a refused answer, a malformed message and a worker error end the client and reject everything pending |
| Client.FirstCallIsAnswered | web/src/client.ts:206-215 | from a fresh client, the first call initialises, goes on once the worker answers null, and is resolved with its answer |
| Client.InitialisationAnswersNull | web/src/client.ts:206-215 | any other answer to the initialisation ends the client |
| SpecGraphs.CycleSearch.Visit | tools/system-spec/reference-implementation/metamodel.py:288-293 | a visit keeps the stack a walk and the finished nodes in order, and leaves the node seen |
| SpecGraphs.Cycles | tools/system-spec/reference-implementation/metamodel.py:286-295 | returns only real closed walks, and returns some if and only if the graph has a cycle |
| SpecGraphs.ReadyIsDepth | tools/system-spec/reference-implementation/metamodel.py:774 | the components ready after k waves are exactly those whose longest dependency chain has k edges |
| SpecGraphs.RemainingIsCyclic | tools/system-spec/reference-implementation/metamodel.py:774 | when none is ready, the remaining components are exactly those that can reach a cycle |
| SpecGraphs.ChangePlanWaves | tools/system-spec/reference-implementation/metamodel.py:771-774 | the loop ends on every dependency graph; the waves are the depths in order, closed by one wave of everything that can reach a cycle if there is any, and cover exactly the affected components |
| SpecGraphs.ProvidersComeFirst | tools/system-spec/reference-implementation/metamodel.py:771-774 | a provider of a component that reaches no cycle is in a strictly earlier wave |
| SpecGraphs.WavesAreDisjoint | tools/system-spec/reference-implementation/metamodel.py:771-774 | no component is in two waves |
| SpecGraphs.WavesAreListed | tools/system-spec/reference-implementation/metamodel.py:774 | the components of a wave are listed by their texts, each once |
| SpecImpact.Spread | tools/system-spec/reference-implementation/metamodel.py:618-626 | the worklist ends with exactly what the changed element reaches through consumers, parts, derived data and owners |
| SpecImpact.ReachedExactly | tools/system-spec/reference-implementation/metamodel.py:618-626 | a change reaches an element exactly along a chain of requiring, deriving, providing and owning, as the specification lists them |
| SpecImpact.RequirementsAreTouchedBy | tools/system-spec/reference-implementation/metamodel.py:627-628 | a requirement is raised by those it depends on or refines, and touched through its target, the system or itself |
| SpecImpact.RaiseRequirements | tools/system-spec/reference-implementation/metamodel.py:627-628 | the fixpoint is exactly the requirements at the end of a dependency or refinement chain from one touched directly |
| SpecImpact.KeptInOrder | tools/system-spec/reference-implementation/metamodel.py:629-635 | what is reported stays in the order the specification lists it in |
| SpecImpact.ImpactAnalysis | tools/system-spec/reference-implementation/metamodel.py:617-636 | the specification's lists, filtered in their order: components, capabilities and data models are those reached, requirements those on such chains, evidence that about either |
| StagedValidation.CheckRisks | tools/system-spec/reference-implementation/metamodel.py:390-396 | the loop over risks reports unknown mitigations, improper waivers and expired proper ones, in order |
| StagedValidation.ValidateSpec | tools/system-spec/reference-implementation/metamodel.py:534-535 | the errors of a stage are the findings of its rank or below that no active waiver covers |
| StagedValidation.WaiversOnlyLapse | tools/system-spec/reference-implementation/metamodel.py:317-322 | for a fixed date a waiver active at a stage is active at every earlier one |
| StagedValidation.StagesAreMonotone | tools/system-spec/reference-implementation/metamodel.py:327-535 | for a fixed date the errors of a stage are a subsequence of those of every later stage |
| StagedValidation.AcceptanceIsInherited | tools/system-spec/reference-implementation/metamodel.py:327-535 | a specification without errors at a stage has none at any earlier stage |
| StagedValidation.ReleaseReportsAll | tools/system-spec/reference-implementation/metamodel.py:320-322 | at release no finding is waived |
| StagedValidation.WaivedExactly | tools/system-spec/reference-implementation/metamodel.py:320-322 | a finding is held back if and only if before release a mitigated or accepted, unexpired risk waives its rule or kind for one of its subjects or the system |
| StagedValidation.RiskFindingsAre | tools/system-spec/reference-implementation/metamodel.py:390-396 | what is found about risks: mitigations that are no requirement, waivers not properly given, proper ones that no longer hold |
| StagedValidation.ErrorsAre | tools/system-spec/reference-implementation/metamodel.py:534-535 | the errors of a stage in terms of the risks and the findings of the other rules |
| StagedValidation.ReportKeepsOrder | tools/system-spec/reference-implementation/metamodel.py:535 | errors are reported in the order they are found |
| Migration.CanonicalReferences | cli/src/modelable/migration.py:107-119 | accepts exactly the non-empty lists of distinct canonical references and sorts them |
| Migration.ParseMapping | cli/src/modelable/migration.py:34-51 | accepts exactly the mappings with a known kind, valid references, the kind's cardinality, and paths for field moves only, and sorts their references |
| Migration.WellFormedMeans | cli/src/modelable/migration.py:34-51 | what a mapping of each kind must relate: how many references, and whether texts of valid declarations or of paths |
| Migration.MappingsAreOrdered | cli/src/modelable/migration.py:53 | mappings are sorted by kind, sources and targets, each compared from the front |
| Migration.ReferencesAreOrdered | cli/src/modelable/migration.py:107-119 | references are compared by their texts |
| Migration.CycleCheck.Visit | cli/src/modelable/migration.py:146-155 | a visit finishes its node after everything it leads to, and fails only on a cyclic graph |
| Migration.RejectCycles | cli/src/modelable/migration.py:138-158 | passes a document if and only if its source-to-target graph is acyclic |
| Migration.ParseMigrationDocument | cli/src/modelable/migration.py:31-54 | accepts exactly the documents whose mappings are well formed, share no source and form no cycle; a refusal names the first mapping at fault; the result is the sorted normal form |
| Migration.NormalFormIdempotent | cli/src/modelable/migration.py:53-54 | normalising a normal form changes nothing, and it is accepted exactly when the document is |
| Migration.NormalFormDecidesOrder | cli/src/modelable/migration.py:22-54 | two documents have one normal form if and only if one is the other with mappings and references reordered, and then both are accepted or neither |
| MigrationLineage.Ancestors | cli/src/modelable/migration.py:161-170 | the worklist returns exactly the nodes strictly above a node, each once |
| MigrationLineage.MigrationEdges | cli/src/modelable/migration.py:71-94 | refused exactly when the document is; otherwise one edge per source and target of a mapping, in key order, each with the sorted transitive ancestors of its source, or that source if it has none, the least of them called ultimate |
| MigrationLineage.LineageCovers | cli/src/modelable/migration.py:71-94 | the listed edges are exactly the steps mappings make, and no edge has its own target among its ultimate sources |
| MigrationLineage.LineageIsListed | cli/src/modelable/migration.py:77-94 | edges are listed by the texts of source and target and by kind, ultimate sources by their texts with the first as the ultimate one |
| MigrationLineage.LineageIgnoresOrder | cli/src/modelable/migration.py:71-94 | reordering a document's mappings and references does not change its lineage |
| MigrationLineage.RootsAreUntargeted | cli/src/modelable/migration.py:80-85 | a reference has no ancestors if and only if no mapping targets it |
| MigrationLineage.UltimateIsRootExactly | cli/src/modelable/migration.py:85-91 | the ultimate source of an edge is a root of the document if and only if the edge's source is no mapping's target or the first of that source's ancestors by text is none |
| MigrationLineage.UltimateNeedNotBeRoot | cli/src/modelable/migration.py:85-91 | an accepted document in which the ultimate source of an edge itself has an ancestor |
| OverlaySelectors.MatchesInOneWay | cli/src/modelable/overlays.py:17-19 | the declaration pattern matches a text in at most one way, with the parts that spell it |
| OverlaySelectors.VersionSelectorRoundTrip | cli/src/modelable/overlays.py:266-293 | a version selector is accepted exactly in the canonical spelling of a proper one, which is what it then means |
| OverlaySelectors.SelectsSomethingExactly | cli/src/modelable/overlays.py:287-290 | an accepted version selector matches some version if and only if it does not contain `<0` |
| OverlaySelectors.BelowZeroSelectsNothing | cli/src/modelable/overlays.py:266-293 | `<0` is accepted and matches no version |
| OverlaySelectors.SelectorIsItsEnds | cli/src/modelable/overlays.py:266-293 | a version selector matches exactly the versions from its greatest lower bound to below its least upper bound |
| OverlaySelectors.VersionsWithinExactly | cli/src/modelable/overlays.py:266-293 | a version selector matches only versions of another if and only if its bounds are empty or lie within the other's |
| OverlaySelectors.SpecificityMeans | cli/src/modelable/overlays.py:224-239 | the lowest specificity addresses every version, three and five one version, four and five a path, four with a wildcard or several versions, five neither |
| OverlaySelectors.ParsedIsGraded | cli/src/modelable/overlays.py:224-239 | each of the five specificities stands for one combination of version selector and path |
| OverlaySelectors.MoreSpecificIsNarrower | cli/src/modelable/overlays.py:224-239 | of two selectors that share a subject the more specific addresses only subjects of the other, unless it has specificity four and the other selects versions; NarrowerExactly decides those too |
| OverlaySelectors.NarrowerExactly | cli/src/modelable/overlays.py:224-239 | of two selectors that share a subject the more specific addresses only subjects of the other if and only if, in case it has specificity four, its version bounds lie within the other's |
| OverlaySelectors.PathOutranksVersion | cli/src/modelable/overlays.py:231-236 | `d.N@>=1#a` outranks `d.N@1`, shares version 1 with it and addresses version 2 besides |
| OverlaySelectors.ConcretePathMatchesItself | cli/src/modelable/overlays.py:255-263 | a path selector without a wildcard matches exactly its own path |
| OverlaySelectors.PathMatchesMeans | cli/src/modelable/overlays.py:255-263 | a path selector matches exactly the paths that are the selector with each `*` replaced by one segment |
| OverlayMeaning.ValidPathMeans | cli/src/modelable/overlays.py:242-252 | a path selector is accepted exactly if each of its segments is `*` or a proper path segment |
| OverlayMeaning.SelectorRoundTrip | cli/src/modelable/overlays.py:212-239 | a selector is accepted exactly in the one spelling of its declaration, version and path, and ranks by what it leaves open |
| OverlayMeaning.SelectsMeans | cli/src/modelable/overlays.py:54-59 | an entry speaks of a subject exactly if it names the declaration, lets the version through and has no path or one that the asked path fills in |
| OverlayMeaning.ValidValueMeans | cli/src/modelable/overlays.py:187-199 | a value is accepted exactly if no array in it holds an array or a table |
| OverlayMeaning.ValidValuesMean | cli/src/modelable/overlays.py:187-199 | a table of values is accepted exactly if each of them is |
| OverlayMeaning.RequestPath | cli/src/modelable/overlays.py:149-155 | for a known declaration, which paths are refused as invalid and which as foreign |
| OverlayMeaning.PyEqMeans | cli/src/modelable/overlays.py:167-174 | two values are equal exactly if they are the same with all numbers written alike and hold no not-a-number |
| OverlayMeaning.EntriesAreOrdered | cli/src/modelable/overlays.py:134-140 | entries are sorted by specificity, then fields before models, then by selector text |
| OverlayMeaning.RequestMeans | cli/src/modelable/overlays.py:149-155 | a request is understood exactly for a canonical identity without hyphen in its domain and a canonical path of that declaration, and asks for those |
| OverlaySelectors.MostSpecificIsOnePath | cli/src/modelable/overlays.py:212-239 | a selector of the highest specificity addresses exactly the semantic path it spells |
| OverlaySelectors.RequestsExactly | cli/src/modelable/overlays.py:202-209 | a request is understood exactly when it is a canonical declaration identity whose domain has no hyphen |
| OverlaySelectors.HyphenIsRefused | cli/src/modelable/overlays.py:202-209 | `a-b.N@1` is a canonical declaration identity and a request for it is refused |
| Overlays.PyEqTransitive | cli/src/modelable/overlays.py:167-174 | equality of values across integers, booleans and floats, at every depth, is transitive, so comparing with the previous supplier compares with all |
| Overlays.ParseOverlay | cli/src/modelable/overlays.py:122-140 | accepts exactly the documents whose values and selectors are valid and sorts the entries by specificity, section and selector |
| Overlays.GatherLayer | cli/src/modelable/overlays.py:165-174 | one layer: fails only on a conflict, and otherwise supplies each key from its last entry of that specificity |
| Overlays.ResolveOverlay | cli/src/modelable/overlays.py:143-178 | raises a conflict exactly when two matching entries of one specificity give unequal values for a key; otherwise each key has value and provenance of the last of the most specific entries that set it, else the default |
| Overlays.ResolutionUnique | cli/src/modelable/overlays.py:157-178 | values and provenance are determined by defaults and matching entries |
| Overlays.WinnersAgree | cli/src/modelable/overlays.py:167-174 | without a conflict all entries of the winning specificity give equal values |
| Overlays.WinnerIsGreatest | cli/src/modelable/overlays.py:134-140 | in a parsed document the winner is the greatest entry by specificity, section and selector |
| Overlays.ConflictIgnoresOrder | cli/src/modelable/overlays.py:167-174 | whether entries conflict does not depend on the order they are compared in |
| Overlays.FileOrderForgotten | cli/src/modelable/overlays.py:124-140 | files that list the same entries in another order parse to the same document |
| Overlays.RequestedPath | cli/src/modelable/overlays.py:149-155 | a path is asked about by its segments, and refused under any declaration but its own |
| CursorText.Utf8RoundTrip | cli/src/modelable/query_service.py:345 | decoding the UTF-8 bytes of a text gives the text |
| CursorText.UnpaddedRoundTrip | cli/src/modelable/query_service.py:346-356 | base64url text without its padding, padded again to a multiple of four, decodes to the bytes it encodes |
| Paging.CursorRoundTrip | cli/src/modelable/query_service.py:339-370 | a cursor gives back its offset to the query, reference and fingerprint it was made for and is refused as a mismatch for any other |
| Paging.CursorsAccepted | cli/src/modelable/query_service.py:349-370 | any cursor is malformed exactly if it carries no JSON, and accepted exactly if it carries the offset, this question, its fingerprint and a version that equals one |
| Paging.PageHoldsTheLimit | cli/src/modelable/query_service.py:283-294 | a page holds as many edges as were asked for from where the cursor stands, or what is left, and has a cursor exactly if more follow |
| Paging.NodesKeepOrder | cli/src/modelable/query_service.py:284-290 | a page shows the graph's nodes in their order, those its edges touch |
| Paging.IncidentMeans | cli/src/modelable/query_service.py:284-290 | a node is on a page with an edge exactly if its identifier is the edge's source or target |
| Paging.PagesAreTheGraph | cli/src/modelable/query_service.py:274-296 | following the cursors with any limits of at least one ends; the pages' edges are the edges in order, and a node is on some page exactly when some edge touches it or there are no edges |
| Paging.IsolatedNodeIsOnNoPage | cli/src/modelable/query_service.py:274-296 | a concrete graph of three nodes and one edge, of which the third node is on no page |
| Paging.FingerprintDecides | cli/src/modelable/query_service.py:299-306 | two answers have one fingerprint exactly when query, reference, nodes and edges are the same up to member order |
| Paging.StaleCursorRefused | cli/src/modelable/query_service.py:349-370 | a cursor is refused as soon as the question or the graph has changed, and opens otherwise |
| Identity.DeclarationRoundTrip | cli/src/modelable/identity.py:71-85 | a text parses to a declaration if and only if the parts are valid and the text is their rendering, decimal version included |
| Identity.PathRoundTrip | cli/src/modelable/identity.py:88-117 | a text parses to a semantic path if and only if the parts are valid and the text is their rendering |
| Identity.ReferenceRoundTrip | cli/src/modelable/identity.py:51-68 | a text parses to a reference if and only if the parts are valid and the text is their rendering |
| Identity.RenderingInjective | cli/src/modelable/identity.py:58-61 | no two valid references share a rendering |
| Identity.NamesAre | cli/src/modelable/identity.py:8-9 | identifiers and domain names by their characters |
| Identity.CharactersAre | cli/src/modelable/identity.py:8-10 | letters and digits by their code points |
| Identity.SegmentsAre | cli/src/modelable/identity.py:10 | a path segment is a container marker or an identifier with at most one of them |
| Conversion.BuildConversionPlan | cli/src/modelable/conversion_plan.py:37-85 | fails only for an unresolved source; otherwise classifies by the kinds and names of the fields, and asks for a hook exactly for partial and impossible conversions |
| Conversion.ReversibleMeansInvertible | cli/src/modelable/conversion_plan.py:68-77 | for one source, a totally reversible plan pairs source and target fields one to one and reading them back restores every source record |
| Conversion.CheckNames | cli/src/modelable/planner/protocol.py:93-99 | the loop with a set of seen names passes exactly the lists without a repeated name |
| Conversion.IndexRelations | cli/src/modelable/planner/protocol.py:312-319 | the loop over relations passes exactly those with distinct aliases and then holds every relation under its alias |
| Conversion.CheckSources | cli/src/modelable/planner/protocol.py:320-336 | the loop over fields passes exactly those whose direct fields are provided by some relation |
| Conversion.ValidateFields | cli/src/modelable/planner/protocol.py:312-336 | passes exactly the plans with distinct target fields, distinct declared fields in every resolved relation, distinct aliases, and direct fields that name a relation and, if it resolved, one of its fields |
| Conversion.LosslessExactly | cli/src/modelable/conversion_plan.py:51-84 | whatever its joins hold and its computed fields compute, a conversion over any type of at least two values is sure to lose nothing of its source exactly when every source field is read directly under the source's alias |
| Conversion.LosslessByClass | cli/src/modelable/conversion_plan.py:68-85 | for one source the lossless direct plans are the reversible ones and those irreversible ones that read every field and only rename |
| Conversion.JoinedFieldCountsAsSource | cli/src/modelable/conversion_plan.py:52-77 | a plan with a join that is called totally reversible and drops its source field |
| WorkspaceFiles.NormalizeIdempotent | web/src/workspace.ts:51-71 | normalising yields a normal path, and a path is its own normal form exactly when it is normal |
| WorkspaceFiles.SafeMeans | web/src/workspace.ts:51-71 | a path is safe exactly if it is made of ordinary segments, ends in `.mdl`, starts with no scheme and holds no control character |
| WorkspaceFiles.ControlsAre | web/src/workspace.ts:47-48 | which characters count as controls, at the ends of each range |
| WorkspaceFiles.LettersAre | web/src/workspace.ts:49 | the letters of a scheme by their code points |
| WorkspaceFiles.NormalizeMeans | web/src/workspace.ts:51-71 | backslashes are read as slashes and nothing else about a path changes |
| WorkspaceFiles.MutationMeans | web/src/workspace.ts:95-173 | a mutation that succeeds keeps the workspace valid, raises the revision by one and changes content and version of exactly the files it names |
| WorkspaceFiles.DeletionActivatesFirst | web/src/workspace.ts:150-165 | deleting the active file activates the first remaining one in the locale's order; deleting another keeps the active file |
| WorkspaceFiles.PlacesAfter | web/src/workspace.ts:95-173 | where files stand after each mutation and which is active |
| WorkspaceFiles.MutationSucceedsExactly | web/src/workspace.ts:95-173 | on a valid workspace a mutation succeeds exactly when its paths are safe, what it reads exists, what it creates does not, and a deletion leaves a file |
| WorkspaceFiles.BatchKeepsValid | web/src/workspace.ts:175-180 | a batch keeps the workspace valid and advances the revision by its length |
| WorkspaceFiles.RecordRoundTrip | web/src/workspace.ts:182-248 | the stored record of a workspace is accepted and read back unchanged if and only if the workspace is valid and has no metadata |
| WorkspaceFiles.ReadRecordsHaveTheirKeys | web/src/workspace.ts:182-248 | a record that is read has exactly the five members, with the version one and the identifier and revision read |
| WorkspaceFiles.ReadFilesHaveTheirKeys | web/src/workspace.ts:182-248 | a file record that is read has exactly its three members, with the content, version and normalised path read |
| WorkspaceFiles.MetadataIsNotReadBack | web/src/workspace.ts:182-248 | a concrete valid workspace with metadata whose record is refused |
| WorkspaceFiles.RunsStayStorable | web/src/workspace.ts:95-248 | whatever a batch makes of a valid metadata-free workspace is read back unchanged from its record |

## Left out

- React rendering, Monaco, graph layout, the editor extension and AI providers: user interface and foreign libraries.
- Emitters, grammar, the CEL parser, compatibility checks and the language workspace: CEL references are given as sequences, and synchronising sets revision and sources.
- WASM hosts, trust policy, package archives, release scripts, exporters, diagrams, drift and path checks: plumbing without a deep property.
- `reset`: while the store is emptied the phase may still be saved, so it is outside the runs; the transaction that removes a record is modelled, the callback is not.
- The document shapes that TOML and JSON readers reject before the modelled code looks at values, such as unknown keys and wrong types of whole sections, except where a schema or stored record is checked.
- The texts of error messages, and which of several conflicting keys a conflict names.
- `_facet_query` pages a list of facets with the same slices and cursors as the graph pages; it is not modelled again.
- `_graph_with_migrations`, `_relation_edges` and `_usage_consumer_edges`: the graph that is paged is given.
- `_resolve` and capability version checks: the dependency graph of change plans and the resolved references of impact analysis are given.
- `lastFailure` in the language controller decides only whether a retry asks again; a retry is any synchronisation of the observed revision.
- PersistenceProtocol.RevisionsNeverGoBack: over calm runs only, because a late restoring load does take a tab back; NeverGoesBackExactly says for all runs when.
- PersistenceProtocol.UnsavedWorkIsNeverLost: over calm runs only, with KeptThroughoutExactly for all runs, and the store may hold another tab's work of an equal or newer revision, because equal revisions overwrite.
- PersistenceProtocol.SavedMeansStored: over calm runs of one tab, because two tabs that reach one revision need not agree on content; AgreesThroughoutExactly says for all runs of any tabs when.
- LanguageProtocol.DeliveredFromObservedSources: needs a revision to determine the content, because equal revisions of different content are told apart only by the compiler's hashes when reopened; AnswersTheObservedExactly has both halves.
- FacetWorkspace.NormalizationIgnoresOrder: needs field names that are canonical path segments, as parsed models have.
- OverlaySelectors.MoreSpecificIsNarrower: one direction, used by NarrowerExactly, which has the exact condition.
- PackageVersions.VersionOrder: for cores without build metadata, on which the key function raises.
- PackageVersions.ValidateConstraint: constraints are given as parts with operator and numbers; the pattern that reads a part is not modelled, only that a part may be malformed.
- Conversion.ReversibleMeansInvertible: for one source, because of joined fields of the same name.
- Paging.CursorRoundTrip: the decoder modelled is strict; the one in use also skips characters outside its alphabet and accepts `NaN` and infinities in JSON.
- Paging.FingerprintDecides: takes the digest to be free of collisions, as SHA-256 is in practice.
- JsonText.LoadsOfDumps: strings are sequences of Unicode scalar values, so lone surrogates do not occur.
- Json.CanonicalIdempotent: values are finite trees with finite floats, so the rejection of reference cycles and of infinities does not arise.
- JsonSchema.VerdictIgnoresMemberOrder: patterns are not interpreted, and the zero and negative zero floats differ in canonical text as their bits do.
- Overlays.PyEqTransitive: floats up to the sign of zero; a list holding the very same not-a-number object as another does not arise from parsed files.
- Identity.DeclarationRoundTrip: digits are ASCII; other Unicode digits and Python's limit on the length of integers are not modelled.
- WorkspaceFiles.RecordRoundTrip: integers are unbounded, so revisions past the largest safe integer of JavaScript are not modelled.
- Client.SettlesAtMostOnce: the conversation loop over several requests is not modelled, only the requests it makes.
- StagedValidation.ValidateSpec: the findings of the rules other than the waiver checks are given, as in StagesAreMonotone.
- StagedValidation.StagesAreMonotone: the rules other than the waiver checks enter as a fixed list of findings, since none of them looks at the stage.
- SpecGraphs.ChangePlanWaves: dependencies are given between affected components and without self-references, as the plan builds them.
