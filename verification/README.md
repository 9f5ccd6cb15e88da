# A verified model of r42's core

r42 runs research blocks of an HCL plan: a block collects evidence in rounds, has the evidence
reviewed, researches, and leaves artifacts in a workspace.  This project models the parts of the
program whose guarantees span many steps and proves those guarantees with Dafny.

`dafny verify dfyconfig.toml` checks everything.

## What is modelled

**Checkpoints** (`Disk`, `Store`, `Registry`, `Unit`).  A file system is an image plus the history
of all images it went through, one per atomic step; a write may tear, any call may fail, and a
crash may follow any step.  On it stand the checkpoint store (stage, copy, rename, publish, load,
verify, clean up, restore), the artifact registry with its workspace snapshots, and the unit
transaction with the resume switch.  The main results speak about every image in the history, so
they hold wherever a process stops, and `Unit.UnitTransaction` about any number of processes one
after the other.

**Collection and Collection QC** (`Workflow`, `Collection`, `Review`, `Outcomes`).  The workflow
state machine, the collection tools with their validators as an object, and the whole loop of tool
calls, recorders and host steps as a transition system over arbitrary schedules.  `Outcomes` reads
what becomes of each information need off the recorded rounds alone.

**Concurrency** (`Watchdog`, `Scope`).  The stall watchdog against handlers and callbacks of any
attempt, and nested semaphore scopes with any number of workers on any tree of modules, which may
grow while workers run.

**Text** (`Unicode`, `Text`, `Search`, `Quote`, `Paging`, `Patch`).  Whitespace normalisation with
its line map, the lines and excerpt of a search match, quotes and their expansion, UTF-8 paging,
and batch patching.  Text is a sequence of code points with a width of one to four bytes, so all
stored offsets are byte offsets; paging alone works on raw bytes, with the syntax of section 4 of
RFC 3629.

**Graphs, fixpoints and stores** (`Plan`, `Locals`, `Knowledge`, `Upload`).  Cycle detection,
fixpoint evaluation of locals, knowledge patches, and multipart upload with versioned rollback.

Code that changes state in place is a class or a method with loops, proved against functions and
predicates; the results are lemmas about those.  `Options` and `Decimal` hold an option type and
the three-digit numbering of archive names and need IDs.

## Assumptions

- SHA-256 and generated IDs are injective or fresh: a digest carries what it digests, a new ID is
  a parameter that is not in use, and a derived ID is an injective function of its source.
- The JSON and cty codecs give back what they were given.
- Paths are canonical; two workspaces are the same exactly when their cleaned paths are.  Keys
  that the program joins with a NUL byte are pairs.  Without symbolic links a logical path and the
  resolved one coincide, so no artifact is indexed under two paths.
- Text and file names are valid UTF-8; in `Paging` this is a condition of the theorems that need it.
- A filesystem call, SDK call or S3 call that fails has no effect of its own, other than the torn
  writes that the disk model allows.  One S3 call stands for all its retries.
- Work inside a scope ends, and takes no further token.
- What an SDK session does is known by what it reports: an event that arrives after callback
  admission has closed is dropped, so the barrier speaks of the tools and subagents reported before.
- The verdict tool is called only while a review waits for a verdict.  The tool itself has no phase
  gate (internal/cli/runtime_workflow_tools.go:632-644); that its session runs only then is what
  keeps a verdict and the round it judges together.
- Orders that the program leaves to a map or a directory walk are arbitrary.

## Where the code differs from what it promises

- A workspace with a file or directory at its top level whose name is white space only is copied
  and published, and then every load of that checkpoint fails, so the checkpoint before it is lost
  (`Store.SpaceNameSpoils`).  A commit is crash atomic exactly when no wanted workspace has such a
  name (`Store.AtomicExactlyWhenPlain`), and a unit is spoiled by nothing else
  (`Unit.SpoiledByTree`).
- Checkpoint IDs chosen by a caller may pass validation and still break the store: `latest`, an ID
  with surrounding space, and an ID with the staging prefix (`Store.LatestAsIDBreaks`,
  `Store.SpacedIDNeverLoads`, `Store.StagingIDIsSwept`).  All other IDs, generated ones among them,
  are safe, and only those (`Store.UsableExactlyWhenWell`).
- A rollback within one process can leave a remembered child of a directory listing behind, because
  restoring and listing use different keys for `children`; the next listing then answers with the
  empty record (`Registry.RollbackLeavesStaleChild`).  Listing is stable exactly when that does not
  happen (`Registry.ListingIsStable`).
- A quote is stored once per byte range, with the lines of whoever stored it first, so expanding
  twice need not be expanding once by the sums: it may give another range
  (`Quote.TwiceIsNotOnce`), and the same range under other lines (`Quote.LinesDifferOnSameRange`).
  `Quote.RangesCompose` says exactly when the ranges agree, `Quote.ExpansionsCompose` exactly when
  the quotes do.
- A snapshot of captured quotes can be restored exactly when no quote text is blank
  (`Quote.GroundedSnapshotRestores`); a match of a lone separator is (`Quote.SeparatorQuoteIsLost`).
- A search match that reaches past its context lines, inside a long context, makes the excerpt slice
  out of range (`Search.CrossingMatchFails`, and exactly when in `Search.ReportedExactlyWhen`).
- The order in which locals are evaluated matters for some evaluators as soon as two are pending and
  one of them already has a value (`Locals.OrderMatters`), and for none otherwise
  (`Locals.OrderFreeAgree`).
- The watchdog's barrier ends with `endRecovery`: a handler call issued late by the stalled attempt
  can still be admitted then (`Watchdog.LateHandlerIsAdmitted`).
- `strings.Count` skips self-overlapping occurrences, so "exactly once" in a patch means that every
  other occurrence overlaps the first (`Patch.OnceMeansFirst`).

## Model

| member | source | states |
|---|---|---|
| `Registry.ArtifactRegistry.SnapshotWorkspace` | internal/artifact/registry.go:98-136 | The saved entries are exactly those of one workspace, in registration order, with their purposes sorted |
| `Registry.ArtifactRegistry.RestoreWorkspace` | internal/artifact/registry.go:186-230 | All or nothing: accepted exactly when no record is foreign, malformed, repeated or owned by another workspace; refused without a trace; otherwise the index is the old one without the workspace plus the snapshot |
| `Registry.RestoreIsExact` | internal/artifact/registry.go:186-230 | After an accepted restore the workspace holds exactly the snapshot's entries, in order |
| `Registry.RestoreFramesOthers` | internal/artifact/registry.go:186-230 | Every other workspace keeps its entries, unchanged and in their relative order |
| `Registry.SnapshotIsFaithful` | internal/artifact/registry.go:98-136 | A snapshot of a consistent registry repeats no ID and describes every entry of the workspace in registration order: record, workspace, directory root, relative path and purposes; each entry comes back whole |
| `Registry.SavedComesBack` | internal/artifact/registry.go:98-163 | The saved form carries every field of an entry, and restoring the saved form gives the whole entry back |
| `Registry.SnapshotDetermines` | internal/artifact/registry.go:129-136 | Two consistent registries have the same snapshot of a workspace if and only if they hold the same entries of it, registered in the same order |
| `Registry.SnapshotUndoesRestore` | internal/artifact/registry.go:129-230 | A snapshot taken from any consistent registry and restored into any other reads back unchanged |
| `Registry.RestoreGivesBack` | internal/artifact/registry.go:129-230 | Restoring a snapshot into any consistent registry gives the workspace back as it was in the source: the same IDs in the same order and every entry whole |
| `Registry.RestoredEntry` | internal/artifact/registry.go:129-230 | Every entry of the source comes back whole under its ID, and the path index finds it |
| `Registry.RestoreKeepsConsistent` | internal/artifact/registry.go:186-230 | Restoring keeps order, entries and path index in step: the order lists each entry once and the path index is its inverse |
| `Registry.SnapshotIsPortable` | internal/artifact/registry.go:129-136 | Every snapshot of a consistent registry with real IDs is one that a restore accepts, conflicts with other workspaces apart |
| `Registry.PortableRestore` | internal/artifact/registry.go:186-230 | Restoring such a snapshot keeps the registry consistent and reads back as the snapshot |
| `Registry.ArtifactRegistry.Restore` | internal/artifact/registry.go:141-184 | Accepted exactly when no ID is blank or repeated; then the registry is the snapshot, otherwise untouched |
| `Registry.ArtifactRegistry.Stage` | internal/artifact/registry.go:190-207 | The checks before the first change decide acceptance completely |
| `Registry.ArtifactRegistry.Empty` | internal/artifact/registry.go:208-219 | The deletion sweep removes exactly one workspace's entries and the index keys they own |
| `Registry.SweptIsWithout` | internal/artifact/registry.go:208-219 | Deleting entry by entry equals taking them all away at once |
| `Registry.ArtifactRegistry.ListDirectoryFiles` | internal/artifact/registry.go:492-568 | Only a declared directory is listed; the walk changes the index as specified and answers with one record per file, sorted by name |
| `Registry.ArtifactRegistry.ListFile` | internal/artifact/registry.go:519-560 | One file of the walk: a remembered child, else the path index, else a new entry; a remembered child that names no entry answers with the empty record |
| `Registry.AnswersAreChildren` | internal/artifact/registry.go:492-568 | The answer for each file of a walk carries the ID remembered for it, and is empty only for a child that was remembered before the walk and named no entry |
| `Registry.SortsByName` | internal/artifact/registry.go:566 | The closing sort orders the answers by name and neither loses nor adds one |
| `Registry.ListOneKeeps` | internal/artifact/registry.go:519-560 | Listing one file keeps the registry consistent, keeps every entry and adds at most the offered ID |
| `Registry.ListOneRecord` | internal/artifact/registry.go:519-560 | A listed file lies at its path below the directory, becomes readable for the directory's purpose besides its own, and keeps its source, description and, if any, name; no other entry changes |
| `Registry.ListedKeeps` | internal/artifact/registry.go:492-568 | A whole walk offered fresh IDs keeps the registry consistent and every entry what it is: no path, type, workspace, purpose or evidence source is lost |
| `Registry.ListingIsStable` | internal/artifact/registry.go:492-568 | After a snapshot taken past a listing is restored elsewhere, the next listing of that file gives the same opaque ID exactly when the restoring process remembers no other child for that parent and path |
| `Registry.RestoredChildren` | internal/artifact/registry.go:186-230 | A restore never touches the children that listings remember, as those use another key form |
| `Registry.RollbackLeavesStaleChild` | internal/artifact/registry.go:523 | Counterexample in the same process: list an unregistered file, roll back to the snapshot before, list again: the answer is an ID that names no entry any more |
| `Registry.ArtifactRegistry.Declare` | internal/artifact/registry.go:305-347 | The artifact at that path gets the name, the description and the output purpose, and is otherwise as it was; refused without a trace exactly for a change of file type; no other entry changes and no evidence purpose |
| `Registry.ArtifactRegistry.RegisterEvidence` | internal/artifact/registry.go:367-441 | `created` is reported exactly when the evidence purpose is new to the artifact, which then has the given source, keeps its name, and takes the description if it had none; no other entry changes, and without `created` nothing does |
| `Registry.RegisteredEvidence` | internal/artifact/registry.go:367-441 | Registration adds exactly the artifact at that path to the evidence, or changes nothing when it is a directory |
| `Registry.DeclaredKeeps` | internal/artifact/registry.go:305-347 | Declaring keeps the registry consistent and the evidence set unchanged |
| `Registry.DeclaredRecord` | internal/artifact/registry.go:305-347 | Field by field what a declaration makes of the entry at a path; evidence keeps its source whatever is declared later |
| `Registry.RegisteredKeeps` | internal/artifact/registry.go:367-441 | Registering keeps the registry consistent |
| `Registry.RegisteredRecord` | internal/artifact/registry.go:367-441 | Field by field what a registration makes of the entry at a path that was not evidence before |
| `Disk.FileSystem.WriteFile` | internal/checkpoint/store.go:534-557 | Writing a file may stop at any point and leave any part of it, but touches nothing else |
| `Disk.ConfinedTransitive` | internal/checkpoint/store.go:85-159 | Steps confined to one directory stay confined when one run of them follows another |
| `Store.Store.Commit` | internal/checkpoint/store.go:85-159 | From a steady run directory and with a usable ID, after every filesystem step of a commit, failing or not, either nothing shows or the new state is published with faithful copies; success means published |
| `Store.AtomicExactlyWhenPlain` | internal/checkpoint/store.go:85-203 | Crash atomicity: every image of a commit that publishes reads back as the old checkpoint or as exactly the new one, if and only if no wanted workspace has a top-level name of white space only |
| `Store.AtomicWhenPlain` | internal/checkpoint/store.go:85-203 | The same for one image at a time: before the publishing step a commit is atomic whatever the workspaces hold |
| `Store.SpaceNameSpoils` | internal/checkpoint/store.go:579-582 | Counterexample: committing a workspace whose only file is named by one space, in any sound run directory, publishes a checkpoint that does not load, in place of whatever was there |
| `Store.LoadsExactlyWhen` | internal/checkpoint/store.go:161-203 | A published state loads if and only if its ID has no surrounding white space, is not `latest`, and no wanted workspace has a top-level name of white space only |
| `Store.UsableExactlyWhenWell` | internal/checkpoint/store.go:572-577 | For every valid ID: it is usable if and only if, from every sound run directory, every commit of plain workspaces under it stays atomic, loads once published, and survives the next staging cleanup |
| `Store.CommitHistory` | internal/checkpoint/store.go:85-159 | The argument behind it, over every image of the folder phase and of the publishing of `latest` |
| `Store.Store.PublishLatest` | internal/checkpoint/store.go:495-518 | Every step leaves `latest` as it was or writes exactly the new name; success means the new name |
| `Store.Store.PublishFolder` | internal/checkpoint/store.go:85-159 | Until the rename only the staging folder differs; after it exactly one new, complete folder |
| `Store.Store.CopyWorkspace` | internal/checkpoint/store.go:375-429 | Success means the entry list describes the tree exactly, digests included, and every file is archived; nothing outside the archive changes |
| `Store.Store.SnapshotWorkspaces` | internal/checkpoint/store.go:344-373 | Success means a faithful copy of every workspace that the registry or the roots name, and of no other |
| `Store.EveryWorkspaceIsCopied` | internal/checkpoint/store.go:344-373 | A published checkpoint copies exactly the workspaces that some registered artifact lies in or that are roots, each as it stands |
| `Store.Store.Load` | internal/checkpoint/store.go:161-203 | Load, check by check, is the lookup that the crash theorems speak of |
| `Store.Store.Verify` | internal/checkpoint/store.go:431-453 | Verification decides by the first failing entry |
| `Store.VerifyEntriesGood` | internal/checkpoint/store.go:431-453 | It passes exactly when every entry has a valid path and every file is stored with its digest |
| `Store.ArchivedVerifies` | internal/checkpoint/store.go:431-453 | Stored copies of a real tree pass verification exactly when the tree has no top-level name of white space only, and are otherwise refused as invalid, never as missing |
| `Store.PublishedLookup` | internal/checkpoint/store.go:161-203 | A complete folder under a usable ID that `latest` names is what Load returns, if its copies verify |
| `Store.ExtendsLookup` | internal/checkpoint/store.go:161-203 | New names beside the published ones never change what Load returns |
| `Store.Store.CleanupStaging` | internal/checkpoint/store.go:205-229 | Every step changes staging entries only, and no workspace; success leaves exactly the entries that are not staging folders |
| `Store.PrunedLookup` | internal/checkpoint/store.go:205-229 | Load does not depend on staging folders: what it returns is the same at every step of a cleanup |
| `Store.Store.RestoreTree` | internal/checkpoint/store.go:455-493 | Whatever a restore was interrupted at, only that workspace changes; success gives exactly the recorded tree |
| `Store.Store.RestoreWorkspace` | internal/checkpoint/store.go:243-261 | Success gives exactly the recorded tree and registry slice, and leaves the checkpoint readable |
| `Store.GeneratedIsUsable` | internal/checkpoint/store.go:590-597 | Every generated checkpoint ID is one that crash atomicity covers |
| `Store.LatestAsIDBreaks` | internal/checkpoint/store.go:572-577 | The first commit of a run under the ID `latest` passes validation and leaves the run directory unreadable |
| `Store.SpacedIDNeverLoads` | internal/checkpoint/store.go:161-203 | Any commit under an ID with surrounding white space is published but never read back |
| `Store.StagingIDIsSwept` | internal/checkpoint/store.go:205-229 | A checkpoint under an ID with the staging prefix is removed by the next successful cleanup |
| `Unit.UnitTransaction` | internal/checkpoint/unit.go:36-129 | Over any number of interrupted lives, from nothing but what each life promises: no other workspace changes and a further life can always start; an unfinished unit stands in, or records, exactly the tree before the first life with the registry slice of a life that found nothing begun; a durable completion stays readable with the same result, slice and tree; a checkpoint that does not load comes from a tree with a top-level name of white space only |
| `Unit.NextStarts` | internal/cli/runtime_workflow.go:225-268 | What a life leaves, cut short anywhere, is a state that the next life can start from |
| `Unit.PhaseStays` | internal/cli/runtime_workflow.go:225-268 | Once completed or spoiled a unit never changes phase, and once begun it is never not begun |
| `Unit.UnfinishedStaysPut` | internal/cli/runtime_workflow.go:225-268 | Until completion every life starts from the one tree before the first life |
| `Unit.SpoiledByTree` | internal/checkpoint/unit.go:111-129 | A unit is only ever spoiled by a tree with a top-level name of white space only |
| `Unit.Block.Run` | internal/cli/runtime_workflow.go:225-268 | One life, interrupted anywhere: no image touches another workspace, and each is one that the transaction allows; a completed unit is never run again and answers with its recorded result, tree and slice |
| `Unit.Block.Enter` | internal/cli/runtime_workflow.go:225-268 | The resume switch enters work only from the pre-unit tree and slice, and answers only with a durable result after restoring its tree and slice; restored entries are, whole, those of whatever registry the slice was taken from |
| `Unit.Block.Restore` | internal/cli/runtime_workflow.go:229-262 | Rollback or restore, by status; interrupted, it leaves the phase as it was |
| `Unit.Unit.Load` | internal/checkpoint/unit.go:59-81 | Loading never changes what the checkpoint says, and returns that |
| `Unit.Unit.Begin` | internal/checkpoint/unit.go:36-44 | Success durably records the present tree and registry slice as started, exactly when the tree is plain; every step before leaves the old checkpoint or the new |
| `Unit.Unit.Complete` | internal/checkpoint/unit.go:46-57 | Success durably records the present tree, slice and result as completed, exactly when the tree is plain; every step before leaves the old checkpoint or the new; a result that is not JSON is refused |
| `Unit.Unit.RestoreTo` | internal/checkpoint/unit.go:83-109 | Rollback and RestoreCompleted: on success workspace and slice are what the checkpoint of that status recorded, and the entries of the workspace are those, whole and in order, of the registry it was taken from; interrupted anywhere, the checkpoint is as before and only this workspace differs |
| `Watchdog.RecoveryIsABarrier` | internal/cli/runtime.go:2295-2465 | Under every interleaving, when recoverStalledAttempt succeeds the send has returned, no handler or callback of the attempt runs, no SDK tool it reported as started is without its completion, no subagent has started more often than stopped in any last part of its reports, and no handler or callback can start |
| `Watchdog.BarrierStands` | internal/cli/runtime.go:1881-1899 | The barrier holds until endRecovery, whatever the environment does |
| `Watchdog.SettledForever` | internal/cli/runtime.go:1901-1919 | A stopped attempt stays stopped: no callback of it is ever admitted again |
| `Watchdog.SendsAreBounded` | internal/cli/runtime.go:2117-2223 | One message causes at most 1 + maxSessionStallRecoveries sends, each but the last stopped for good before the next |
| `Watchdog.CountersAreExact` | internal/cli/runtime.go:1837-1940 | Over every schedule the counters that the barrier reads are the numbers of handlers and callbacks now running, and its records are of exactly the SDK tools and subagents that the reports so far leave running, and of whether the session has been idle since the abort |
| `Watchdog.TrackKeeps` | internal/cli/runtime.go:1921-1957 | Whatever is reported next, the record still says exactly which SDK tools have started and not completed and how many subagents of each key run, a stop that finds none counting for nothing |
| `Watchdog.OrderlyAgents` | internal/cli/runtime.go:1948-1957 | As long as no subagent stops that has not started, the count of a key is its starts less its stops |
| `Watchdog.RecoversExactlyWhen` | internal/cli/runtime.go:2366-2440 | A stopped attempt is recovered exactly when nothing was canceled, a failed abort was followed by an idle session, and, where another send is allowed, the session can be recovered and is idle or was resumed |
| `Watchdog.LateHandlerIsAdmitted` | internal/cli/runtime.go:2207 | The barrier ends there: a handler call that the stalled attempt issued late is admitted before the next send |
| `Watchdog.WorkIsAdmitted` | internal/cli/runtime.go:1837-1912 | As long as no recovery is under way every handler is admitted, and until its attempt has been stopped every callback of it is |
| `Watchdog.TypedToolActivity.Begin` | internal/cli/runtime.go:1837-1848 | A handler is admitted exactly when no recovery runs, and counted |
| `Watchdog.SessionProgress.BeginCallback` | internal/cli/runtime.go:1901-1912 | A callback is admitted exactly while admission is open, and counted |
| `Watchdog.SessionProgress.TryCloseCallbackAdmission` | internal/cli/runtime.go:1968-1977 | Admission closes exactly when no callback, tool or subagent is active |
| `Watchdog.SessionProgress.TrackEvent` | internal/cli/runtime.go:1921-1940 | One event changes the tool set, the agent counts and the idle flag; Watchdog.TrackKeeps says what they then record |
| `Workflow.RoundsStayWithinBudget` | internal/workflow/state.go:328-383 | Under any sequence of events the round budget holds and the cursor counts the closed rounds |
| `Workflow.TakenIsWalk` | internal/workflow/state.go:328-383 | The accepted events form an unbroken walk from Collection to where the run stands, through Research and Final QC, with exactly one sufficient verdict before Research and as many further rounds as verdicts that asked for them |
| `Workflow.TakenExactlyWhen` | internal/workflow/state.go:328-383 | An event is accepted exactly when it belongs to the phase the walk has reached and asks for no round beyond the budget |
| `Workflow.State.Advance` | internal/workflow/state.go:328-383 | The permitted transitions, refused otherwise or when the budget is used up, and then without a change |
| `Workflow.State.Begin` | internal/workflow/state.go:194-212 | Starts round one exactly once, and only with a positive budget and batch size |
| `Workflow.State.RegisterEvidenceArtifact` | internal/workflow/state.go:277-294 | Counts one unreviewed artifact and closes the acquisition gate at the batch size |
| `Workflow.State.Checkpoint` | internal/workflow/state.go:296-311 | Clears the unreviewed count, refused when nothing is unreviewed |
| `Collection.CountedIsExact` | internal/collection/tools.go:637-716 | Pigeonhole: the right number of distinct IDs, each from the wanted ones, is each wanted ID exactly once |
| `Collection.ValidateNeedDispositions` | internal/collection/tools.go:1038-1086 | Accepts exactly one well-formed disposition per active need and nothing else |
| `Collection.ValidateAssessments` | internal/collection/tools.go:637-716 | Accepts exactly one well-formed assessment per active need, against that need's state, and nothing else |
| `Collection.CheckEntry` | internal/collection/tools.go:669-701 | The checks on one entry decide whether it fits the need it names |
| `Collection.FreezeIsCanonical` | internal/collection/tools.go:325-358 | Frozen needs have pairwise different canonical IDs |
| `Collection.NextStateKeeps` | internal/collection/tools.go:545-607 | One applied entry keeps the need, only shrinks its unsatisfied conditions, and a stalled round without progress uses up patience or ends the need |
| `Collection.NeedJudged` | internal/collection/tools.go:573-596 | An open need becomes satisfied exactly when its entry says so, stalled exactly when this round and the one before were stalled without progress over the same conditions, out of budget exactly when neither holds in the last budgeted round, and otherwise stays open with exactly the reported conditions |
| `Collection.RoundJudged` | internal/collection/tools.go:564-607 | So does every need of a plan in one applied round, by the entries of verdict and checkpoint that carry its ID; recorded outcomes stay |
| `Collection.PatienceRunsOut` | internal/collection/tools.go:545-607 | Patience, 2 times the unsatisfied conditions minus the streak, bounds how long a stalled need stays open |
| `Collection.StalledNeedTerminates` | internal/collection/tools.go:545-607 | A frozen need reported stalled without progress in every round is terminal after at most two rounds per stop condition |
| `Collection.Context.SetInformationNeeds` | internal/collection/tools.go:325-358 | The plan is validated, given canonical IDs and frozen for good |
| `Collection.Context.ValidateInformationNeeds` | internal/collection/tools.go:360-379 | Accepts exactly the plans of 1 to 10 needs with 1 to 5 conditions each, none blank |
| `Collection.Context.Register` | internal/collection/tools.go:889-967 | Appends newly created evidence, and only with a plan, before the checkpoint and from exactly one source |
| `Collection.Context.Submit` | internal/collection/tools.go:976-1027 | Submits exactly the evidence not submitted before, in order, only with no tool call in flight and with fitting dispositions |
| `Collection.Context.BeginCollectionToolCall` | internal/collection/tools.go:443-463 | A tool call is counted exactly while the gate is open |
| `Collection.Context.ApplyQCAssessments` | internal/collection/tools.go:545-607 | A fitting verdict judges every open need by the entries that name it and leaves recorded outcomes alone; any other is refused without a change |
| `Review.HostNeverFails` | internal/collectionqc/runner.go:91-166 | Over every run: no recorder refuses an accepted call, every verdict the tool recorded is applied, and no phase transition is refused |
| `Review.EvidenceIsSubmittedOnce` | internal/collection/tools.go:976-1027 | Over every run: the accepted checkpoints laid end to end are the registered evidence in order without repeats, and an accepted checkpoint leaves nothing unsubmitted and no counted call in flight |
| `Review.ResearchSeesReviewedEvidence` | internal/coordinator/coordinator.go:142-177 | Over every run: on entering Research every registered evidence ID has been reviewed and every need is terminal, within the budgeted rounds |
| `Review.PlanAndOutcomesAreFrozen` | internal/collection/tools.go:545-607 | Over every continuation of every run: the frozen plan and every recorded outcome stay, and unsatisfied conditions only disappear |
| `Review.StalledNeedIsTerminal` | internal/collection/tools.go:545-607 | Over every continuation of every run: a need that every applied verdict reports stalled and without progress is terminal once there have been two such verdicts for each of its stop conditions |
| `Review.StalledReview` | internal/collection/tools.go:573-596 | One applied verdict that reports an open need stalled and without progress costs it patience or ends it |
| `Outcomes.RoundsDecide` | internal/collection/tools.go:573-607 | Over every run, the outcome of each need is exactly what its rounds say, read from the recorded verdicts and dispositions alone: satisfied by the last round, stalled by the last two, out of budget after the last budgeted one, or open with what the last round reported |
| `Outcomes.PlanIsFirstAccepted` | internal/collection/tools.go:325-358 | Over every run, the needs in force are what the first accepted call asked for, trimmed, in order and under canonical IDs |
| `Outcomes.PlanIsTakenExactlyWhen` | internal/collection/tools.go:325-379 | After any run a plan is taken exactly when there is none yet and it is valid |
| `Outcomes.EvidenceIsWhatWasRegistered` | internal/collection/tools.go:889-967 | Over every run the evidence list is exactly what the run has made evidence, and the acquisition gate is on exactly while a whole batch of it has not been submitted |
| `Outcomes.CheckpointIsAcceptedExactlyWhen` | internal/collection/tools.go:976-1027 | After any run a checkpoint is accepted exactly when there is a plan, none is accepted since the last review, no counted call is in flight, there is one disposition per open need, and a reason is given exactly when nothing is left to submit |
| `Review.LastRoundEndsCollection` | internal/collectionqc/runner.go:127-166 | In the last budgeted round any recorded verdict leads to Research |
| `Review.AcceptedCheckpoint` | internal/collection/tools.go:976-1027 | An accepted checkpoint carries exactly the evidence after what was submitted before, and the dispositions and reason it was called with |
| `Review.CheckpointStep` | internal/collection/runner.go:156-188 | The checkpoint recorder never refuses an accepted checkpoint |
| `Review.ReviewStep` | internal/collectionqc/runner.go:127-166 | Any recorded verdict is applied in its round and the phase advances |
| `Review.StepKeepsInvariant` | internal/coordinator/coordinator.go:141-185 | Every step of the tools, the recorders and the host keeps the invariant of the protocol |
| `Scope.ResearchScope.NewScope` | internal/concurrency/scope.go:18-29 | A negative bound is refused, zero means the default, and the limit is the least capacity |
| `Scope.ResearchScope.Module` | internal/concurrency/scope.go:31-44 | The child shares the parent's semaphores and adds at most one; its limit is again the least capacity on its chain |
| `Scope.WithinLimit` | internal/concurrency/scope.go:53-81 | Over every run of any number of workers on any tree of scopes: the tokens of a semaphore are its holders and within capacity, and no more bodies run in a scope than its limit |
| `Scope.AskedLimitHolds` | internal/concurrency/scope.go:31-44 | Whatever happens later, under a module scope never more bodies run at once than were asked for it, and all of them count for the scope it was split from; zero shares its semaphores |
| `Scope.AskedRootHolds` | internal/concurrency/scope.go:18-29 | Under a root scope never more run than were asked for it, or than the default |
| `Scope.ExitReturnsTokens` | internal/concurrency/scope.go:60-66 | A call that is over has given back exactly what it took, innermost first, and no release blocks |
| `Scope.NoDeadlock` | internal/concurrency/scope.go:67-81 | While any call is unfinished some call can take a step of its own, with no cancellation and no newcomer |
| `Scope.FollowBlockers` | internal/concurrency/scope.go:67-77 | Whoever blocks a waiting worker holds more tokens than it; following blockers ends at a worker that can move |
| `Scope.MaximalRunsFinish` | internal/concurrency/scope.go:53-81 | The calls under way take a bounded number of steps, and a run that cannot be continued has finished them all and emptied every semaphore |
| `Scope.StepKeepsInvariant` | internal/concurrency/scope.go:53-81 | Every step keeps the token count equal to the holders and each semaphore at one depth |
| `Plan.ValidateAcyclic` | internal/plan/model.go:235-267 | Nil exactly when no node reaches itself; the finishing order is then topological and complete, and otherwise the stack and the address close a cycle |
| `Plan.Visitor.Visit` | internal/plan/model.go:242-260 | Each address is entered once: the visit finishes it after all it depends on, or stops at a walk that closes on itself |
| `Plan.OrderIsAcyclic` | internal/plan/model.go:235-267 | A topological order of all nodes rules out every cycle |
| `Plan.ClosedWalkIsCycle` | internal/plan/model.go:244-246 | What a rejection reports is a real cycle |
| `Plan.ValidateNodes` | internal/plan/model.go:214-233 | Accepts exactly plans with unique addresses, child plans for modules, known dependencies and no cycle; a rejection names a defect that is there |
| `Text.NormalizeWithLines` | internal/evidence/io.go:51-76 | The one-pass loop yields exactly the joined fields, and the line map |
| `Text.NormalizeStep` | internal/evidence/io.go:42-44 | Joining the fields, one rune at a time |
| `Text.FieldsAreWords` | internal/evidence/io.go:42-44 | Each field is non-empty and free of white space |
| `Text.NormalizeKeepsText` | internal/evidence/io.go:42-44 | Normalising neither loses, adds nor reorders a non-space rune |
| `Text.StartsShape` | internal/evidence/io.go:51-76 | Line starts strictly increase in both fields, begin at offset 0 and lie inside the text |
| `Text.LineMapIsTrue` | internal/evidence/io.go:51-76 | For every byte of the normalised text the last start at or below it is on that rune's true source line; a separator is on the line of the byte before it |
| `Text.SortSearch` | internal/evidence/io.go:79 | The binary search finds the first index at or above the bound |
| `Text.LineIsSearched` | internal/evidence/artifact.go:138-141 | The start before the index searched for has the line of the byte before the bound |
| `Text.FirstByteSplits` | internal/evidence/io.go:78-90 | A line range holds exactly the bytes whose line lies in it |
| `Text.StartsAlign` | internal/evidence/io.go:51-76 | Every line start is a code-point boundary |
| `Search.LinesOfMatch` | internal/evidence/artifact.go:138-141 | The searched lines are those of the first and last byte of the match, and the end line is not before the line |
| `Search.MatchLinesAreTrue` | internal/evidence/artifact.go:137-148 | A reported match gives the true source lines of its first and last rune |
| `Search.ContextOfMatch` | internal/evidence/artifact.go:142 | The context is exactly the bytes of the lines at most contextLines away from where the match starts; it holds all of the match exactly when the match ends within them |
| `Search.ReportedExactlyWhen` | internal/evidence/artifact.go:142-148 | A match is reported exactly when its context is at most the excerpt size or holds all of the match; otherwise cutting the excerpt slices out of range |
| `Search.CrossingMatchFails` | internal/evidence/io.go:97-98 | Counterexample: on a source line of at least 4000 runes, a match that crosses into the next line cannot be reported without context |
| `Search.ExcerptShowsMatch` | internal/evidence/artifact.go:142-148 | A match that ends within the context lines is shown whole by its excerpt, which is the context itself when short and otherwise 4000 runes of it around the match, as many before as after unless the context ends |
| `Search.ExcerptKeepsMatch` | internal/evidence/io.go:92-105 | Cutting a long excerpt down keeps the match |
| `Search.ExcerptIsAround` | internal/evidence/io.go:92-105 | The excerpt is a short text itself, and otherwise 4000 consecutive runes with the match in the middle or at an end of the text |
| `Search.LocatedIsReported` | internal/evidence/artifact.go:137-148 | What the search reports of one match: its lines, its text and its excerpt |
| `Quote.QuoteRegistry.StoreQuote` | internal/evidence/quote.go:266-279 | One quote per byte range, the first kept; the two maps stay inverse |
| `Quote.StoreKeeps` | internal/evidence/quote.go:266-279 | Storing keeps the maps inverse and every earlier quote |
| `Quote.QuoteRegistry.CaptureMatch` | internal/evidence/quote.go:166-189 | Captures only what comes from a search, with its lines, text and range; over a search result every stored quote keeps its text, its range and a locator that names exactly its lines |
| `Quote.CaptureAnswers` | internal/evidence/quote.go:166-189 | A capture succeeds exactly for a match with a digest and a real range in a known artifact, and answers with the stored quote of that range: an earlier one, or the match as found |
| `Quote.QuoteRegistry.ExpandQuote` | internal/evidence/quote.go:209-254 | Refuses bad bounds, unknown quotes and changed artifacts; otherwise stores the widened quote; every stored quote keeps its text, its range and a locator that names exactly its lines |
| `Quote.ExpansionFailsForLength` | internal/evidence/quote.go:209-254 | After any run, expanding a captured quote over unchanged content fails exactly when the trimmed lines reached hold more than 12000 runes, never as empty |
| `Quote.ExpansionContains` | internal/evidence/quote.go:209-254 | A successful expansion contains the original range and is grounded again: its bytes lie on its lines |
| `Quote.ReachIsExact` | internal/evidence/quote.go:231-241 | An expansion reaches exactly the bytes of the lines asked for, as far as the text goes |
| `Quote.GroundedIsOrdered` | internal/evidence/quote.go:236-252 | A grounded quote has its end line at or after its start line and a non-empty range |
| `Quote.WidenTwice` | internal/evidence/quote.go:231-241 | Apart from the store, expanding twice equals expanding once by the sums |
| `Quote.RangesCompose` | internal/evidence/quote.go:209-279 | From one registry, two expansions in a row and one in one go give the same byte range exactly when no text lies between the lines the second of the two asks for and those asked for in one go |
| `Quote.ExpansionsCompose` | internal/evidence/quote.go:209-279 | They give the same quote, lines included, exactly when moreover the range was stored before, or both come to store it under the same lines and from the same source record |
| `Quote.FreshExpansionsCompose` | internal/evidence/quote.go:209-279 | When the first expansion answers with the lines it was asked for, the ranges agree, and the quotes do unless the second expansion only comes upon blank lines |
| `Quote.TwiceIsNotOnce` | internal/evidence/quote.go:271-273 | Counterexample to the range: with text on the lines 1, 5 and 9, one and then three lines before the last one never reach line 5, as four at once do, because the store answers with the quote of the same range |
| `Quote.LinesDifferOnSameRange` | internal/evidence/quote.go:271-273 | Counterexample to the lines: one and then four lines before give the bytes that five at once give, as lines 5 to 9 against 4 to 9 |
| `Quote.FoundIsGrounded` | internal/evidence/artifact.go:137-148 | What a search reports is grounded in what it searched |
| `Quote.DoKeeps` | internal/evidence/quote.go:166-279 | Every capture and expansion keeps the maps inverse and every quote grounded: its words are those of its range, its bytes lie on its lines, and its locator names exactly these lines, as one line exactly when they are the same |
| `Quote.QuotesComeFromMatches` | internal/evidence/quote.go:166-279 | Over every run each stored quote, however often expanded, goes back to a captured match in its own artifact and text, with the title and URL the artifact had then |
| `Quote.QuoteRegistry.Snapshot` | internal/evidence/quote.go:85-97 | The snapshot lists every quote exactly once |
| `Quote.QuoteRegistry.Restore` | internal/evidence/quote.go:101-114 | Accepted exactly when every record is intact and no reference is repeated; otherwise nothing changes |
| `Quote.SnapshotRestores` | internal/evidence/quote.go:85-163 | Restoring a snapshot is accepted exactly when every quote is intact, and then gives the registry back |
| `Quote.GroundedSnapshotRestores` | internal/evidence/quote.go:289-293 | For captured and expanded quotes that means: exactly when no quote text and no artifact ID is blank |
| `Quote.SeparatorQuoteIsLost` | internal/evidence/quote.go:289-293 | Counterexample: a match of a lone separator is captured, and no snapshot of that registry is accepted |
| `Paging.ReadPage` | internal/artifact/registry.go:667-741 | The page is the longest valid run that fits, found by dropping bytes from the end; the refusals in order |
| `Paging.ReadsExactlyWhen` | internal/artifact/registry.go:667-741 | On valid UTF-8 a read succeeds exactly at a boundary whose next character fits the bound |
| `Paging.PageIsValid` | internal/artifact/registry.go:726-741 | A page is valid UTF-8 within the bound, ends on a boundary, and gives up at most three of the bytes it could have read |
| `Paging.BoundaryIsRuneStart` | internal/artifact/registry.go:714-722 | In a valid file the boundaries are exactly the bytes that can start a rune |
| `Paging.NearBoundary` | internal/artifact/registry.go:730-732 | A boundary lies at most three bytes before any limit |
| `Paging.PagesMakeUpFile` | internal/artifact/registry.go:667-741 | With room for any character, following the next offset ends, refuses nothing, and the pages concatenate to the file |
| `Paging.SmallBoundStops` | internal/artifact/registry.go:733-735 | With less room a character too long for the bound stops the reader for good |
| `Paging.TrimToValid` | internal/artifact/registry.go:730-732 | The trim loop leaves the longest valid run |
| `Patch.PatchText` | internal/evidence/io.go:139-198 | Succeeds exactly when there are patches, each with a non-blank text that occurs once, and none overlap; the outcome replaces all matched intervals of the original at once |
| `Patch.PatchSubstitutes` | internal/evidence/io.go:189-193 | The back-to-front splice equals the simultaneous substitution |
| `Patch.SpliceSubstitutes` | internal/evidence/io.go:190-193 | After any number of splices the text before the last edit is the original's and the rest is done |
| `Patch.PatchOrder` | internal/evidence/io.go:166-193 | Neither success nor the outcome depends on the order of the patch list |
| `Patch.PatchLength` | internal/evidence/io.go:190-193 | The length changes by the sum of the differences |
| `Patch.RestIsKept` | internal/evidence/io.go:190-193 | On success the outcome is spelled by runes of which those that come from the original are exactly the unmatched ones, each once and in order, whatever is inserted |
| `Patch.TraceKeeps` | internal/evidence/io.go:190-193 | From any position that no edit covers, the kept runes of the substitution are the uncovered positions in order |
| `Patch.OnceMeansFirst` | internal/evidence/io.go:176-179 | A non-overlapping count of one means that there is an occurrence and every other one overlaps the first |
| `Patch.CheckApart` | internal/evidence/io.go:182-188 | The pairwise test finds exactly the lists with an overlap |
| `Locals.EvaluateLocals` | internal/cli/runtime.go:1367-1402 | Whatever order the map yields, a well-behaved evaluator ends without an error in the least closed environment; each pass but the last leaves less pending |
| `Locals.LeastIsUnique` | internal/cli/runtime.go:1367-1402 | There is only one such environment |
| `Locals.OrdersAgree` | internal/cli/runtime.go:1378-1399 | All orders of evaluation end in the same environment when stale values agree with their expressions |
| `Locals.OrderFreeAgree` | internal/cli/runtime.go:1378-1399 | For every monotone error-free evaluator the order does not matter when no pending name has a value yet, or at most one name is pending... |
| `Locals.OrderMatters` | internal/cli/runtime.go:1372-1396 | ...and otherwise some monotone error-free evaluator tells two orders apart |
| `Locals.KeepsUnderway` | internal/cli/runtime.go:1392-1396 | Each recorded value stays right and within every closed environment |
| `Knowledge.KnowledgeFile.PatchKnowledge` | internal/cli/runtime_workflow_tools.go:1718-1787 | The file is replaced exactly when there is one change and it is accepted; then the patched item has the trimmed claim, the lowered rating and citations that resolve, in order, to what is cited, with unmentioned fields and all other items as they were, or the named item is gone; the file is referentially closed with unique item IDs; otherwise it is untouched |
| `Knowledge.Document.Apply` | internal/cli/runtime_workflow_tools.go:1799-1944 | Accepted exactly when IDs are valid, the patch fits, and all surviving items cite known quotes and are rated; then the patched item is patched field by field, the removed one gone, the others unchanged, and the quotes kept are those stored or newly cited that an item still cites |
| `Knowledge.ChangeKeepsClosure` | internal/cli/runtime_workflow_tools.go:1907-1943 | Every surviving item cites, every cited ID names a kept quote, every kept quote is cited, item IDs stay unique |
| `Knowledge.ChangeIsMade` | internal/cli/runtime_workflow_tools.go:1832-1906 | An accepted change patches exactly the fields mentioned of exactly the named item, takes out exactly the removed one, and each new citation resolves to the stored quote of its reference or to the trusted one under a derived ID |
| `Knowledge.QuotesAreRetained` | internal/cli/runtime_workflow_tools.go:1918-1935 | A quote is kept exactly when it is the stored one of its reference or cited by the patch, and some item still cites its ID |
| `Knowledge.LowersExactlyWhen` | internal/cli/runtime_workflow_tools.go:1855-1858 | A rating is one of the three words in whatever mix of cases it is written |
| `Knowledge.OthersAreUntouched` | internal/cli/runtime_workflow_tools.go:1847-1906 | All items but the one patched or removed are unchanged and in order |
| `Knowledge.Cite` | internal/cli/runtime_workflow_tools.go:1862-1887 | Citations are accepted exactly when each is a trusted, submit-ready and authorised quote; known references keep their stored ID |
| `Knowledge.KeepUsed` | internal/cli/runtime_workflow_tools.go:1928-1935 | The kept quotes are exactly the catalogue's with a used ID |
| `Knowledge.CheckIDs` | internal/cli/runtime_workflow_tools.go:1807-1817 | Accepts exactly non-blank, pairwise different item IDs |
| `Upload.UploadMultipart` | internal/s3/upload.go:132-190 | Success makes the object exactly the content, from parts that tile it; failure changes no object |
| `Upload.SendParts` | internal/s3/upload.go:153-173 | The parts are numbered from 1 and put together they are the content |
| `Upload.PartsTile` | internal/s3/upload.go:153-155 | All parts but the last have the part size, the last is not empty, and there are as many as the size divided by the part size, rounded up |
| `Upload.UploadFiles` | internal/s3/upload.go:56-81 | What is returned is exactly the uploaded prefix, whole and under fresh versions, and nothing else changed |
| `Upload.HoldingIs` | internal/s3/upload.go:56-81 | Each uploaded object holds the content of the last file uploaded as it, and every other object is as it was |
| `Upload.RollbackUploaded` | internal/s3/rollback.go:35-54 | Goes on after a failure, deletes only what was uploaded, and reports clean exactly when all of it is gone |
| `Upload.HoldingTakenBack` | internal/s3/rollback.go:35-54 | Taking back fresh versions gives back the bucket as it was |
| `Upload.ApplyFolder` | internal/cli/runtime_s3.go:79-92 | A failed upload into a versioned bucket whose cleanup reports no error leaves every object's set of versions as it was |

## Left out

- Registry.ArtifactRegistry.RegisterEvidence: reading the file, its source header and the refusal of empty files are a condition on the call, because they are plain file access.
- Store.Store.RestoreTree: guarantees the recorded tree for closed trees only, as copying a workspace produces no others.
- Unit.Block.Run: models the resuming process; a first process without the resume flag begins at once, which is the never-begun case of the same switch.
- Quote.QuoteRegistry.Snapshot: lists the quotes in some order; the sorting by reference is not modelled, because nothing depends on it.
- Locals.EvaluateLocals: promises nothing about the values on an evaluator that is not well behaved; Locals.OrderMatters shows why.
- Upload.ApplyFolder: promises restoration only for versioned buckets and a clean rollback, as the code does.
- `Registry.Merge` and `QuoteRegistry.Merge`, which are not all or nothing on conflict.
- Alias lookup by logical path: it gives an artifact a second path key and a new path, which canonical paths exclude.
- Retained tool results and purpose queries of the registry: they add lookups only.
- Sessions saved in checkpoints, file modes, umask, fsync beyond process crashes, symbolic links, the names "." and ".." and Windows paths.
- Snapshot and Restore of the collection context and of the workflow state: plain copies with field checks.
- The protocol attempt limits of the collection and QC runners, their prompts and session plumbing; a session that fails to answer only stops the loop.
- Final QC and its ledger of open issues, and the Research session itself.
- What the acquisition gate refuses once it is on: only when it is on is modelled (Outcomes.EvidenceIsWhatWasRegistered).
- Timers, activity times and debug logging of the watchdog; a stall is detected at any moment.
- Regular-expression matching: a match is any pair of code-point boundaries within the match bound.
- Markdown writing, workspace confinement of paths and atomic replacement of patched files.
- HCL parsing, expression evaluation and cty values: an evaluator is an arbitrary function.
- The object key of a source file, content types, retry delays and credentials of the S3 client.
- Model sessions, the SDK, MCP, providers, compilers, the terminal interface and command-line flags.
