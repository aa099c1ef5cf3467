# Verified models of the coworker runtime and its neighbours

These Dafny files model the parts of the repository whose guarantees hold over whole runs, and
prove these guarantees. `dafny verify dfyconfig.toml` checks the project.

Each part has a specification on values (functions and state machines), the code in its own form
(classes and loops, each method proved to compute the specification) and lemmas about the
specification. What a step or a call comes to is also stated without the specification's own
functions: on declared dependencies, file names, timers, promises and characters. Of the methods
the table below lists those with loops or recursion; every other method of a class takes the step
of the state machine that its contract names.

- **Scratchpad kernels.** `RuntimeModel`, `RuntimeInvariants`, `RuntimeEffects`, `RuntimeSpawns`
  and `ChildProcessRuntime` are the parent's handle on one child process; `ArtifactRpc`,
  `ArtifactRpcInvariants`, `ArtifactRpcOutcomes` and `KernelEntry` the protocol between parent and
  kernel; `CellArchive`, `CellTree` and `CellTreeText` the journal, its tree and how that is
  printed; `KernelPool`, `ScratchpadModel`, `ScratchpadInvariants`, `ScratchpadUses` and
  `ScratchpadManager` the pool of kernels and what the manager keeps on disk.
- **Extension order.** `StringOrder`, `DependencyGraph`, `ExtensionSort`, `ExtensionMeaning`.
- **Utilities.** `StableSort`; `SecretPatterns`, `SecretMeaning`, `SecretScanner`, `RedactedText`
  and `NestedSecret`; `NdjsonChannel`; `AuditLog`; `MigrationRunner`; `Numerals`.
- **Mirrors and settings.** `ResourceSync`; `HeadlessAnswers` and `HeadlessReplies`; `DataVault`;
  `ArtifactSlug`; `SeedDefaults`.

A step of a state machine is one call, frame, timer or process event; what the environment
decides (whether a lock is free, a spawn works, a write goes through, the time) is a parameter of
the step, so the lemmas hold for every choice.

## Where the code does less than its documentation

The models follow the code. The lemmas named here give the exact condition of each case and, where
there are two, a run or input on which the code falls short.

- `redact` leaves covered text standing after a secret nested in another one
  (`SecretScanner.RedactIsIdealIff`), and what it leaves can be a whole secret, so that it is not
  idempotent (`RedactedText.RedactIsIdempotentIff`, `NestedSecret.NestedSecretSurvives`).
- A broken stream of a superseded kernel fails the cells of its successor
  (`RuntimeInvariants.ReadErrorHarmlessIff`, `RuntimeInvariants.SupersededReadErrorFailsNewCell`).
- The exit of a killed kernel while its successor is being spawned rejects the successor's ready
  promise, so that cells issued to the live, ready successor are never sent
  (`RuntimeSpawns.IssuedToReadyKernelIff`, `RuntimeSpawns.SpoiledKernelIgnoresItsCell`).
- A cell run before the first kernel's environment is there starts a second kernel; the first is
  never told to stop, not even by `dispose` (`RuntimeSpawns.NeverStoppedIff`,
  `RuntimeSpawns.OrphanHappens`).
- `dispose` during a pending spawn leaves a child that becomes current afterwards
  (`RuntimeInvariants.DisposeFinalIff`).
- The end of input rejects the RPCs pending then, but one issued later by a cell still running is
  never settled (`ArtifactRpcInvariants.CanSettleIffReading`, `ArtifactRpcInvariants.LateRpcHappens`).
- A request the answer injector has claimed can stay without reply (`HeadlessAnswers.StrandedIff`,
  `HeadlessAnswers.LateQuestionStrands`), and of two requests under one title one goes out of reach
  of its answer (`HeadlessAnswers.ReachIff`, `HeadlessAnswers.ReachableIffOneEachTitle`,
  `HeadlessAnswers.SharedTitleLosesAnswer`).
- An error message with a line break breaks the line of its cell in the printed tree
  (`CellTreeText.TextSplitsIff`).
- Of two migrations from one version the first registered is taken, even into a dead end
  (`MigrationRunner.MigratesIffFirstChain`, `MigrationRunner.DeadEndDespiteChain`).
- Vault references can share a file (`DataVault.SharedFile`), which is exactly when the sidecar can
  go wrong (`DataVault.SidecarsSyncIff`).
- A slug of more than 60 characters can get a numbered sibling that no URI resolves to
  (`ArtifactSlug.CandidateResolvesIff`).
- An audit log with `maxTails` 0 forgets on every rotation (`AuditLog.NoTailsForget`).
- The comment at `src/seed-defaults.ts:338` says that paths of missing harnesses are recorded; the
  code records only the existing ones (`SeedDefaults.LateHarnessIsSeededIff`).
- The header of `src/extension-sort.ts` speaks of cycle participants; left over are also the ids
  that merely depend on a cycle (`DependencyGraph.LeftoverIffReachesCycle`).

## Model

| member | source | states |
|---|---|---|
| ExtensionSort.SortExtensionPaths | src/extension-sort.ts:25-137 | For every list of paths (duplicate, missing, self and cyclic dependencies, repeated ids) the in-degree tables, the sorted ready queue and the leftover pass return manifest-less paths in input order, then the paths of the reference order, then the leftovers alphabetically, with the missing and cycle warnings in order. |
| ExtensionSort.BuildIdMap | src/extension-sort.ts:31-38 | The id map, its keys in insertion order and the paths without a manifest. |
| ExtensionSort.LastPathWins | src/extension-sort.ts:31-38 | An id is mapped exactly when some manifest declares it, and to the last path that does. |
| ExtensionSort.BuildGraph | src/extension-sort.ts:44-74 | In-degrees count the valid dependencies with repetitions, each dependents list holds an id as often as it declares the dependency, and the missing warnings come in declaration order. |
| ExtensionSort.KahnLoop | src/extension-sort.ts:83-101 | Counters and sorted insertion compute the greedy order: the loop emits the paths of the reference order and leaves each counter at the number of unmet dependencies. |
| ExtensionSort.AppendCycles | src/extension-sort.ts:108-131 | Leftover paths in the given order and one warning for each dependency between leftovers. |
| ExtensionMeaning.GraphIsDeclared | src/extension-sort.ts:50-65 | The graph has an edge for every dependency a manifest in force declares on another installed extension, and no other. |
| DependencyGraph.OrderRespects | src/extension-sort.ts:83-101 | Each id of the order stands behind all its installed dependencies. |
| DependencyGraph.RespectsMeaning | src/extension-sort.ts:17-24 | Dependency-respecting means: no id twice, only installed ids, every installed dependency earlier; both directions. |
| DependencyGraph.OrderIsLexLeast | src/extension-sort.ts:78-101 | The Kahn order is the lexicographically least of all dependency-respecting orders of the ids that are not left over. |
| DependencyGraph.RespectingWithinOrder | src/extension-sort.ts:83-101 | No dependency-respecting order, complete or partial, contains an id the Kahn loop leaves over. |
| DependencyGraph.LeftoverIffReachesCycle | src/extension-sort.ts:103-106 | Left over are exactly the ids from which some dependency chain reaches a cycle, on it or not. |
| DependencyGraph.AcyclicIffNothingLeft | src/extension-sort.ts:103-108 | Nothing is left over if and only if no chain of dependencies repeats an id. |
| ExtensionSort.SortedIdsCoverKeys | src/extension-sort.ts:133-136 | The sorted ids are each id of the map exactly once. |
| ExtensionMeaning.DependenciesFirst | src/extension-sort.ts:17-24 | Every installed dependency declared by the manifest of an id that reaches no cycle stands before that id. |
| ExtensionMeaning.LoadsDependencyFirst | src/extension-sort.ts:25-137 | On the paths returned: if the last manifest of an id declares another id and reaches no cycle, the last path of that other id is loaded before its own. |
| ExtensionMeaning.WithoutManifestFirst | src/extension-sort.ts:31-38 | The result begins with the paths without manifest, each place of the input that has none once and in input order. |
| ExtensionSort.LeftoversLast | src/extension-sort.ts:103-131 | A position lies in the leftover part if and only if its id reaches a cycle. |
| ExtensionSort.LeftoversAlphabetical | src/extension-sort.ts:104-106 | The leftover part ascends in string order. |
| StringOrder.LessIff | src/extension-sort.ts:78-101 | The string order: a proper prefix, or the smaller character at the first difference. |
| ExtensionMeaning.WarningsCounted | src/extension-sort.ts:54-127 | Each missing warning comes as often as its dependency is declared and not installed, each cycle warning as often as one between two ids that reach cycles is declared. |
| ExtensionMeaning.WarningsMeaning | src/extension-sort.ts:54-127 | A missing warning for exactly each declared, foreign, not installed dependency; a cycle warning for exactly each declared dependency between two ids that reach cycles; every leftover has one. |
| ExtensionMeaning.WarningsInOrder | src/extension-sort.ts:54-127 | Missing warnings before cycle warnings; the former in the order in which ids first occur, the latter in the order of the ids, both in the order of declaration. |
| ExtensionSort.InputOrderIrrelevant | src/extension-sort.ts:79-106 | With distinct ids, reordering the input changes nothing behind the manifest-less prefix. |
| ChildProcessRuntime.ChildProcessRuntime.FailAllPending | packages/coworker-scratchpad/src/child-process-runtime.ts:447-459 | Every waiting cell is rejected with its timers cleared and every pending snapshot answered, by the two loops over the maps. |
| RuntimeInvariants.StepKeeps | packages/coworker-scratchpad/src/child-process-runtime.ts:180-330 | Every possible event keeps the invariant: each cell waiting or settled once, exactly its two timers armed while it waits, active id waiting, ids never reused, restarts bounded, run frames written once. |
| RuntimeInvariants.ReachableInv | packages/coworker-scratchpad/src/child-process-runtime.ts:144-330 | The invariant holds after every possible run of calls, frames, timers, exits, read errors and spawns. |
| RuntimeInvariants.SettledExactlyOnce | packages/coworker-scratchpad/src/child-process-runtime.ts:221-235 | In every reachable state an issued cell is unsettled with both timers armed, or settled by exactly one call with none armed. |
| RuntimeEffects.StepSettlesIff | packages/coworker-scratchpad/src/child-process-runtime.ts:165-330 | For every event and waiting cell: the cell is settled, with both timers cleared and exactly the outcome named, if and only if the event is its result from the current child, its timer, cancel before ready, its elapsed grace, the exit of the current child, a read error or dispose; else promise, total timer and place in the map stay. |
| RuntimeEffects.ResultStands | packages/coworker-scratchpad/src/child-process-runtime.ts:221-235 | The result a current child writes for a waiting cell is the outcome of its promise in every further run. |
| RuntimeEffects.StepProcess | packages/coworker-scratchpad/src/child-process-runtime.ts:144-193 | What each event does to the process: which child is current, alive and ready, which signals it is sent, and how the ready promise settles. |
| RuntimeEffects.RunCellAccepted | packages/coworker-scratchpad/src/child-process-runtime.ts:273-293 | A cell is refused exactly when disposed or when a dead kernel was restarted once without success; else it waits as the active cell under a new id with its two timers, the silence window at 30 s. |
| RuntimeEffects.FramesSent | packages/coworker-scratchpad/src/child-process-runtime.ts:294-303 | A run frame is written by its continuation alone, for a cell that still waits, to the child of that moment. |
| RuntimeEffects.RestartsCounted | packages/coworker-scratchpad/src/child-process-runtime.ts:275-283 | The restart counter: back to 0 by each result of a waiting cell, failed ones included, one more by each restart, else unchanged. |
| RuntimeEffects.SnapshotAccepted | packages/coworker-scratchpad/src/child-process-runtime.ts:332-342 | A snapshot is refused exactly when disposed or without a live child; else it waits under a new id of the shared counter. |
| RuntimeEffects.SnapshotsAnswered | packages/coworker-scratchpad/src/child-process-runtime.ts:199-205 | A pending snapshot is answered once, by its frame from the current child or by the end of the kernel, is withdrawn by its own continuation, and else keeps waiting. |
| RuntimeEffects.GracesOpened | packages/coworker-scratchpad/src/child-process-runtime.ts:305-330 | Cancelling a ready kernel opens a grace period for the active cell, and nothing else does. |
| RuntimeInvariants.OutcomeIsFinal | packages/coworker-scratchpad/src/child-process-runtime.ts:221-235 | A settled promise keeps its outcome through every further run. |
| RuntimeInvariants.TotalTimerEndsTheWait | packages/coworker-scratchpad/src/child-process-runtime.ts:263-271 | Whatever the kernel does, the total timer of a waiting cell can fire and rejects it, leaving no live current child. |
| RuntimeInvariants.ProgressRearmsActiveOnly | packages/coworker-scratchpad/src/child-process-runtime.ts:242-251 | Progress replaces the silence timer of the active cell and touches no other cell and no total timer. |
| RuntimeInvariants.ReadErrorHarmlessIff | packages/coworker-scratchpad/src/child-process-runtime.ts:237-239 | The read-error path has no such guard: it changes nothing if and only if nothing waits. |
| RuntimeInvariants.SupersededReadErrorFailsNewCell | packages/coworker-scratchpad/src/child-process-runtime.ts:237-239 | A reachable state in which a read error of a superseded child rejects the new child's cell. |
| RuntimeInvariants.RestartsSeparated | packages/coworker-scratchpad/src/child-process-runtime.ts:275-283 | Between two restarts by runCell some cell completed, in every run. |
| RuntimeInvariants.DisposeFinalIff | packages/coworker-scratchpad/src/child-process-runtime.ts:480-491 | After dispose no child ever becomes current again if and only if no spawn was waiting for its environment. |
| RuntimeInvariants.NothingWaitsAfterDispose | packages/coworker-scratchpad/src/child-process-runtime.ts:480-491 | After dispose no run accepts a cell, leaves one waiting or arms a timer. |
| RuntimeSpawns.StaysSuperseded | packages/coworker-scratchpad/src/child-process-runtime.ts:144-166 | A child that has been replaced as the current one never becomes it again, in any run. |
| RuntimeSpawns.SupersededFramesAreErasable | packages/coworker-scratchpad/src/child-process-runtime.ts:165-181 | Whatever a superseded child still writes can be struck out of any run: the run stays possible and ends in the same state. |
| RuntimeSpawns.RejectedIffSpoiled | packages/coworker-scratchpad/src/child-process-runtime.ts:144-193 | In every run, while a kernel is alive or on its way, its ready promise is rejected if and only if, before ready, the child it replaces exited during the spawn or the current one reported a startup error. |
| RuntimeSpawns.IssuedToReadyKernelIff | packages/coworker-scratchpad/src/child-process-runtime.ts:294-303 | A cell issued to a live kernel that reported ready can be sent its run frame if and only if the kernel's promise was not spoiled before. |
| RuntimeSpawns.RejectedIsNeverSent | packages/coworker-scratchpad/src/child-process-runtime.ts:295-303 | A cell bound to a rejected promise is sent in no run. |
| RuntimeSpawns.SpoiledKernelIgnoresItsCell | packages/coworker-scratchpad/src/child-process-runtime.ts:165-172 | A reachable state in which a live, ready kernel never gets the cell that waits on it: the killed kernel exited after its restart had begun. |
| RuntimeSpawns.NeverStoppedIff | packages/coworker-scratchpad/src/child-process-runtime.ts:144-166 | In every run, of the children that are neither live and current nor gone, exactly those were never told to stop that were alive when another child took their place. |
| RuntimeSpawns.OrphanHappens | packages/coworker-scratchpad/src/child-process-runtime.ts:480-491 | A reachable state after dispose in which the first of two kernels was never told to stop: a cell ran before its environment was there. |
| KernelEntry.KernelProcess.RejectAllPending | packages/coworker-scratchpad/src/kernel-entry.ts:379-387 | The finally clause rejects each pending promise once and empties the map. |
| KernelEntry.KernelProcess.Dispatcher | packages/coworker-scratchpad/src/kernel-entry.ts:334-387 | Whatever frames arrive and whatever the cells request, await or finish between them, after the end of input every RPC promise has been settled exactly once. |
| KernelEntry.TurnsAreSteps | packages/coworker-scratchpad/src/kernel-entry.ts:334-387 | A turn of the dispatch loop is the step of the whole system in which the kernel takes that part. |
| ArtifactRpcInvariants.StepKeeps | packages/coworker-scratchpad/src/kernel-entry.ts:75-101 | Every step of parent, kernel and pipes keeps the token invariant of the combined system. |
| ArtifactRpcInvariants.OneTokenPerPendingRpc | packages/coworker-scratchpad/src/kernel-entry.ts:75-101 | In every reachable state each pending RPC has exactly one token (request frame, running handler or response frame), any other id none, and its promise is settled at most once. |
| ArtifactRpcInvariants.OneTokenPerOwedCell | packages/coworker-scratchpad/src/kernel-entry.ts:356-377 | Each cell sent down is owed exactly one result: its run frame, the running cell or the result frame. |
| ArtifactRpcInvariants.ResponseSettlesItsOwn | packages/coworker-scratchpad/src/kernel-entry.ts:93-101 | A response finds its id pending, settles it as it says, and moves no other promise. |
| ArtifactRpcOutcomes.HandlerDecides | packages/coworker-scratchpad/src/child-process-runtime.ts:366-398 | In every run without end of input after the parent's handler returned or threw, the kernel's promise is pending or settled once as the handler decided: resolved if it returned, rejected if it threw. |
| ArtifactRpcOutcomes.OutcomeIsFinal | packages/coworker-scratchpad/src/kernel-entry.ts:93-101 | A settled RPC keeps its outcome through every further run. |
| ArtifactRpcOutcomes.HeldUntilSettled | packages/coworker-scratchpad/src/kernel-entry.ts:82-101 | A cell that awaits a pending RPC is held up, in every run, exactly until that RPC is settled. |
| ArtifactRpcOutcomes.SnapshotsConserved | packages/coworker-scratchpad/src/kernel-entry.ts:341-354 | While input lasts, over every run: for each id, the snapshots asked for are those whose request or answer is in a pipe and those answered. |
| ArtifactRpcInvariants.WaitingCellCanBeServed | packages/coworker-scratchpad/src/child-process-runtime.ts:366-398 | From every reachable state with a cell waiting on an RPC, pipe and handler steps alone settle that RPC within as many steps as frames are in the pipes, plus two. |
| ArtifactRpcInvariants.InlineDispatchDeadlocks | packages/coworker-scratchpad/src/kernel-entry.ts:356-361 | Under a dispatch loop that awaited each cell before the next frame or the end of input, a cell waiting on an RPC would wait in every run for ever. |
| ArtifactRpcInvariants.EndOfInputFreesAll | packages/coworker-scratchpad/src/kernel-entry.ts:379-387 | The end of input rejects what is pending and frees every waiting cell. |
| ArtifactRpcInvariants.CanSettleIffReading | packages/coworker-scratchpad/src/kernel-entry.ts:379-387 | In every reachable state some run settles a pending RPC if and only if the kernel's input has not ended. |
| ArtifactRpcInvariants.LateRpcIsNeverSettled | packages/coworker-scratchpad/src/kernel-entry.ts:379-387 | What is pending after the end of input stays pending in every run. |
| ArtifactRpcInvariants.LateRpcHappens | packages/coworker-scratchpad/src/kernel-entry.ts:379-387 | Such a state is reachable: a cell still running at the end of input issues an RPC. |
| CellArchive.CellArchive.Scan | packages/coworker-scratchpad/src/cell-archive.ts:39-52 | The id of the last cell line, and the next id. |
| CellArchive.RunKeepsJournal | packages/coworker-scratchpad/src/cell-archive.ts:31-96 | Over every run of append, setLeaf, reset and reopen, ids are 1 to n, every parent is an earlier cell and the leaf is a cell. |
| CellArchive.RunHolds | packages/coworker-scratchpad/src/cell-archive.ts:31-96 | Over every run from an empty journal: the inputs appended since the last reset, in their order, and as leaf the last cell appended, or where it was put since, or after reopening the last cell. |
| CellArchive.RunAppends | packages/coworker-scratchpad/src/cell-archive.ts:60-76 | A cell appended in a run is the next one, with its input as given, below the leaf of that moment. |
| CellTree.ProjectTree | packages/coworker-scratchpad/src/cell-tree.ts:14-36 | The loops compute children in journal order, the first parentless cell as root, and the orphans. |
| CellTree.ProjectedRoots | packages/coworker-scratchpad/src/cell-tree.ts:14-36 | For any list of cells: the first without parent is the root; orphans are in journal order those whose parent is not in it, then the other ones without parent. |
| CellTree.ProjectIsForest | packages/coworker-scratchpad/src/cell-tree.ts:14-36 | A well-formed journal projects to a forest in which children come after their parents, so rendering terminates. |
| CellTree.FormatShowsEachCellOnce | packages/coworker-scratchpad/src/cell-tree.ts:81-90 | Every cell of the journal is printed on exactly one line. |
| CellTree.FormatReadsBack | packages/coworker-scratchpad/src/cell-tree.ts:66-90 | Reading the printed lines by their indentation gives back every cell's parent. |
| CellTree.FindLeaves | packages/coworker-scratchpad/src/cell-tree.ts:38-44 | The nodes without children. |
| CellTree.LeafIffNoChild | packages/coworker-scratchpad/src/cell-tree.ts:38-44 | A cell is a leaf exactly when no cell was appended below it. |
| CellTree.CellIsAboveSomeLeaf | packages/coworker-scratchpad/src/cell-tree.ts:38-44 | Every cell lies on the path from some leaf to its root. |
| CellTreeText.RenderNode | packages/coworker-scratchpad/src/cell-tree.ts:57-79 | The line of the cell, with indentation, connector, summary and marker, then by recursion the lines of the subtree; it terminates on a forest. |
| CellTreeText.FormatTreeText | packages/coworker-scratchpad/src/cell-tree.ts:81-90 | The root subtree, then the orphans under their header, joined to one text. |
| CellTreeText.LineShows | packages/coworker-scratchpad/src/cell-tree.ts:52-76 | The columns of a cell's line: indentation of twice its depth, connector, number, ok or err, value or error cut at 40 and padded to 45, first code line cut at 60, and the mark. |
| CellTreeText.FormatFlags | packages/coworker-scratchpad/src/cell-tree.ts:66-90 | In the printed journal exactly the leaf is marked, and exactly the youngest cell below a parent has the closing connector. |
| CellTreeText.TextSplitsIff | packages/coworker-scratchpad/src/cell-tree.ts:52-90 | Splitting the text of a journal at its line breaks gives one line a cell, as printed, if and only if no outcome has a line break in the part of it that is shown. |
| CellTreeText.TextReadsBack | packages/coworker-scratchpad/src/cell-tree.ts:66-90 | Then the text alone, read line by line by indentation and number, gives back every cell and its parent. |
| KernelPool.EvictLruOnlyCoolsIdle | packages/coworker-scratchpad/src/scratchpad-manager.ts:501-516 | Eviction changes nothing but runtimes, and only idle ones, to cold. |
| KernelPool.EvictLruMakesRoom | packages/coworker-scratchpad/src/scratchpad-manager.ts:501-516 | Afterwards fewer than maxLive kernels are warm, or every warm one runs a cell; the loop terminates because each round cools one. |
| KernelPool.EvictLruIsLeastRecent | packages/coworker-scratchpad/src/scratchpad-manager.ts:504-509 | No kernel is evicted whose stamp is later than that of an idle one left warm. |
| KernelPool.VictimIsFirst | packages/coworker-scratchpad/src/scratchpad-manager.ts:504-509 | The victim is the first, in insertion order, of the idle kernels with the least stamp. |
| ScratchpadUses.StampIsLastUse | packages/coworker-scratchpad/src/scratchpad-manager.ts:526-581 | In every run of a new manager the stamp of a managed scratchpad is the time of the last call that used it: the create or fork that registered it, or the last get or runCell that reached it. |
| ScratchpadUses.EvictsLeastRecentlyUsed | packages/coworker-scratchpad/src/scratchpad-manager.ts:501-534 | In every run: no attach evicts a kernel whose last use in the run is later than that of an idle one it leaves warm. |
| ScratchpadUses.SweepGoesByLastUse | packages/coworker-scratchpad/src/scratchpad-manager.ts:862-875 | In every run the sweep cools exactly the idle kernels whose last use in the run is by the cutoff. |
| KernelPool.EvictLruNoMoreThanNeeded | packages/coworker-scratchpad/src/scratchpad-manager.ts:501-503 | It stops as soon as there is room for one. |
| KernelPool.SpawnKeepsPoolBounded | packages/coworker-scratchpad/src/scratchpad-manager.ts:526-534 | After making room and warming one kernel, at most maxLive are warm or all others run cells. |
| KernelPool.WarmCountIs | packages/coworker-scratchpad/src/scratchpad-manager.ts:363-367 | The count of the loop is the number of warm kernels. |
| KernelPool.SweptIsCoolOverdue | packages/coworker-scratchpad/src/scratchpad-manager.ts:862-875 | The idle sweep cools exactly the idle kernels last used by the cutoff, in whatever order it meets them. |
| ScratchpadManager.ScratchpadManager.EvictLruIfNeeded | packages/coworker-scratchpad/src/scratchpad-manager.ts:501-516 | The count and victim loops carry out the LRU eviction. |
| ScratchpadManager.ScratchpadManager.EvictIdle | packages/coworker-scratchpad/src/scratchpad-manager.ts:862-875 | The sweep loop. |
| ScratchpadInvariants.StepRefinesDocs | packages/coworker-scratchpad/src/scratchpad-manager.ts:501-886 | Every call keeps the invariant (archive counters mirror the journal, a warm archive's leaf is the recorded one, leaf null exactly for an empty journal, one parentless cell) and does to journal and leaf exactly what the call means. |
| ScratchpadInvariants.DocSurvives | packages/coworker-scratchpad/src/scratchpad-manager.ts:501-540 | Over every run without an edit of a scratchpad its journal and leaf stay, through attaches, evictions, sweeps and new managers. |
| ScratchpadInvariants.LeafSurvivesEviction | packages/coworker-scratchpad/src/scratchpad-manager.ts:332-344 | Whenever a scratchpad is warm again without an edit in between, the same or a new manager has its leaf in force. |
| ScratchpadInvariants.ForkCarriesLeaf | packages/coworker-scratchpad/src/scratchpad-manager.ts:697-739 | A fork starts with the journal and leaf of its source and is warm with that leaf until edited. |
| ScratchpadInvariants.EveryRunFromDisk | packages/coworker-scratchpad/src/scratchpad-manager.ts:501-886 | Every run of a new manager on a directory of well-formed files keeps the invariant, and every journal it leaves has one root, cell 1, and a tree without orphans. |
| ScratchpadInvariants.AttachKeepsPoolBounded | packages/coworker-scratchpad/src/scratchpad-manager.ts:526-540 | Right after every spawning attach at most maxLive kernels are warm or every other warm one is busy. |
| ScratchpadInvariants.AttachSparesBusy | packages/coworker-scratchpad/src/scratchpad-manager.ts:504-508 | No attach changes anything about another scratchpad whose kernel runs a cell. |
| ScratchpadUses.AttachLeaves | packages/coworker-scratchpad/src/scratchpad-manager.ts:518-540 | An attach succeeds exactly with a kernel at hand, or one that starts (and a free lock for a scratchpad not yet held); then the scratchpad is warm, and a running cell runs on. |
| ScratchpadUses.ForkLeaves | packages/coworker-scratchpad/src/scratchpad-manager.ts:665-741 | Exactly when a fork is refused without effect, when it only cools a source whose kernel hangs, and when it leaves the source cold and a cold copy with the source's files; nothing else changes. |
| ScratchpadUses.EvictLeaves | packages/coworker-scratchpad/src/scratchpad-manager.ts:604-628 | Evicting one kernel is refused when it is cold, or busy and not forced; nothing else changes. |
| ScratchpadUses.RemoveLeaves | packages/coworker-scratchpad/src/scratchpad-manager.ts:853-860 | Removing forgets entry and files of one scratchpad and touches no other. |
| ScratchpadUses.ClosingLeaves | packages/coworker-scratchpad/src/scratchpad-manager.ts:877-886 | Closing the manager, and opening a new one, forgets every entry and no file. |
| ScratchpadUses.BusyAsTold | packages/coworker-scratchpad/src/child-process-runtime.ts:471-473 | A warm kernel is busy from the start of a cell to its end, and nothing else changes by that. |
| ScratchpadUses.EditsRefusedIff | packages/coworker-scratchpad/src/scratchpad-manager.ts:630-771 | A leaf can be moved to exactly the cells of the journal; history is cleared unless a cell runs; a refused edit changes nothing. |
| SecretScanner.Scan | packages/coworker-utils/src/secret-scanner.ts:27-42 | The pattern loop with lastIndex finds the leftmost non-overlapping matches of each pattern, sorted by start. |
| SecretScanner.Redact | packages/coworker-utils/src/secret-scanner.ts:44-55 | The cursor loop, with slices that are empty when the cursor has gone past them. |
| SecretPatterns.MatchShape | packages/coworker-utils/src/secret-scanner.ts:19-24 | A match of any pattern has at least 20 characters, all letters, digits, dash or underscore. |
| SecretMeaning.MatchMeans | packages/coworker-utils/src/secret-scanner.ts:19-24 | The match of a pattern is the longest stretch from there on of the form its expression names (prefix, alphabet, length), and there is none if there is no such stretch. |
| SecretMeaning.HitsAreSecrets | packages/coworker-utils/src/secret-scanner.ts:27-42 | Every hit is a secret of its kind, as long as it can be, shown by its first eight characters. |
| SecretMeaning.SecretsAreHit | packages/coworker-utils/src/secret-scanner.ts:27-42 | The first character of every secret anywhere in the text is covered by a hit. |
| SecretMeaning.ScanFindsIff | packages/coworker-utils/src/secret-scanner.ts:27-42 | The scan finds something if and only if some stretch of the text is a secret. |
| SecretMeaning.OneHitRedacted | packages/coworker-utils/src/secret-scanner.ts:44-55 | A text with one hit is redacted to what is before it, the marker of its kind, and what is behind it. |
| SecretPatterns.ScanComplete | packages/coworker-utils/src/secret-scanner.ts:29-40 | Wherever a pattern matches, some hit covers the first character of the match. |
| SecretPatterns.ScanSound | packages/coworker-utils/src/secret-scanner.ts:27-42 | Hits are non-empty stretches of the text, in order of their starts, with the eight-character preview. |
| SecretPatterns.NoHitIffNoMatch | packages/coworker-utils/src/secret-scanner.ts:27-42 | There is no hit if and only if no pattern matches anywhere. |
| StableSort.SortIsStable | packages/coworker-utils/src/secret-scanner.ts:41 | The sort orders, loses and adds nothing, and keeps ties in their order. |
| SecretScanner.RedactIsWalk | packages/coworker-utils/src/secret-scanner.ts:44-55 | redact writes one marker per hit at its start and keeps exactly the characters at which the last started hit has ended. |
| SecretScanner.RedactIsIdealIff | packages/coworker-utils/src/secret-scanner.ts:44-55 | redact drops every covered character and keeps the rest with one marker per hit if and only if every hit that ends inside an earlier one is followed, by its end, by another hit. |
| SecretScanner.OrderedEndsRedact | packages/coworker-utils/src/secret-scanner.ts:44-55 | When ends come in the order of starts, redact is that redaction. |
| RedactedText.RedactedHasNoSecretIff | packages/coworker-utils/src/secret-scanner.ts:44-55 | The redacted text has no match of any pattern if and only if none matches inside a stretch redact copies, between one hit's end and the next one's start. |
| RedactedText.RedactIsIdempotentIff | packages/coworker-utils/src/secret-scanner.ts:44-55 | Redacting twice is redacting once if and only if the same holds. |
| RedactedText.RedactedHasNoSecret | packages/coworker-utils/src/secret-scanner.ts:44-55 | It holds whenever redact drops every covered character. |
| NestedSecret.NestedSecretSurvives | packages/coworker-utils/src/secret-scanner.ts:49-52 | A text with a key nested in another one, out of which redact writes a whole second key. |
| NdjsonChannel.ReadNdjson | packages/coworker-utils/src/ndjson-channel.ts:13-41 | For every split into chunks: the values of the lines before the first bad one and its line number, or all values, as splitting the whole text gives them. |
| NdjsonChannel.DecodesUnique | packages/coworker-utils/src/ndjson-channel.ts:13-41 | A text has one decoding. |
| NdjsonChannel.ChunkingIrrelevant | packages/coworker-utils/src/ndjson-channel.ts:17-32 | Two ways to cut a text into chunks are read alike. |
| NdjsonChannel.LinesJoin | packages/coworker-utils/src/ndjson-channel.ts:20-23 | Lines joined by newlines are the text. |
| NdjsonChannel.WriteNdjson | packages/coworker-utils/src/ndjson-channel.ts:6-11 | Appends the line of the message and a newline. |
| NdjsonChannel.WrittenReadsBack | packages/coworker-utils/src/ndjson-channel.ts:6-41 | Reading any chunking of what was written returns the messages written, for every faithful line encoding. |
| AuditLog.AuditLog.RotateIfNeeded | packages/coworker-utils/src/audit-log.ts:91-106 | The descending rename loop moves each tail up by one and the live file to tail 1. |
| AuditLog.AuditLog.Read | packages/coworker-utils/src/audit-log.ts:55-72 | Live file, then tails; matching records sorted newest first. |
| AuditLog.RotateRetains | packages/coworker-utils/src/audit-log.ts:94-105 | A rotation keeps every line but those of the oldest tail, and these only when all tails are in use. |
| AuditLog.RunFromEmpty | packages/coworker-utils/src/audit-log.ts:45-106 | Over every run, with failing writes: tails are 1 to k with k at most maxTails, oldest to newest and live file are a suffix of the history, every tail holds at least maxBytes, the live file stays under maxBytes without its last line, and a line is lost only with all tails in use. |
| AuditLog.DroppedMeansPlentyKept | packages/coworker-utils/src/audit-log.ts:91-106 | Once anything is dropped, at least maxTails times maxBytes bytes are kept. |
| AuditLog.ReadIsRetained | packages/coworker-utils/src/audit-log.ts:55-88 | read yields each retained matching record exactly once, none newer than its predecessor. |
| AuditLog.ReadSelects | packages/coworker-utils/src/audit-log.ts:55-88 | In every run, the records read returns are exactly those of the lines retained that pass each filter given, with the since bound included. |
| AuditLog.NoTailsForget | packages/coworker-utils/src/audit-log.ts:91-106 | With maxTails 0 a rotation hides every earlier line from read. |
| ResourceSync.SyncResourceDir | src/resource-loader.ts:286-305 | The result is the mirrored tree; the call fails exactly when a source file meets a destination directory, and then leaves the prepared destination with some of the source copied over it. |
| ResourceSync.PartlyCopiedMeaning | src/resource-loader.ts:332-343 | After a failed copy every path is the source's or the prepared destination's, and none of the latter is lost or changes its kind. |
| ResourceSync.CopyDirRecursive | src/resource-loader.ts:332-343 | In whatever order directories are read: all of the source below the directory is copied, or a file and a directory met. |
| ResourceSync.PruneStaleSiblingFiles | src/resource-loader.ts:307-326 | Removes exactly the top-level files whose other form is in the source and which are not. |
| ResourceSync.SyncIsMirror | src/resource-loader.ts:286-305 | Pruning, removing the source's directories and copying come to the mirror image: each source path as in the source, of the others all but stale siblings and what lay in source directories. |
| ResourceSync.FileStaysUnless | src/resource-loader.ts:307-326 | A top-level file the source does not have is removed if and only if it is stem.ts or stem.js and the other one is a file of the source; else it stays as it is. |
| ResourceSync.SourceWins | src/resource-loader.ts:286-305 | Every path of the source is as in the source; of other paths nothing below a source directory stays, everything else but such files does, and nothing is added. |
| ResourceSync.MirroredWellFormed | src/resource-loader.ts:286-305 | The result is a tree again. |
| ResourceSync.KeepsOwnDirectories | src/resource-loader.ts:281-284 | A directory only the destination has keeps all its contents. |
| ResourceSync.MirrorTwice | src/resource-loader.ts:286-305 | A second sync changes nothing. |
| ResourceSync.HasStaleCompiledExtensionSiblings | src/resource-loader.ts:758-775 | The loop decides whether some installed module's other form, and not itself, is in the source. |
| ResourceSync.StaleMeaning | src/resource-loader.ts:758-775 | Stale: an installed stem.ts or stem.js whose other form, and not itself, is in the source in the same directory. |
| ResourceSync.Visit | src/resource-loader.ts:777-794 | The recursive walk collects every file below a directory. |
| ResourceSync.NothingStaleAfterSync | src/resource-loader.ts:758-775 | After a sync the detector, which looks at all depths, reports nothing, although pruning looks only at the top. |
| HeadlessAnswers.AnswerInjector.ObserveEvent | src/headless-answers.ts:123-156 | Metadata first, then every request waiting under a known title, each with its timer cleared. |
| HeadlessAnswers.StepKeeps | src/headless-answers.ts:123-194 | Every event keeps the accounting invariant, repeated titles and orphaned timers included. |
| HeadlessReplies.LearnMeans | src/headless-answers.ts:131-146 | A title is known once a question with that header and text was observed, and then the last one counts. |
| HeadlessReplies.AnswerForIff | src/headless-answers.ts:244-270 | The valid answer of a file: for a multiple question all values, each offered; for a single one the first value, offered. |
| HeadlessReplies.StepReplies | src/headless-answers.ts:148-284 | Every reply of a step is, for a request whose timer ran out, a cancellation or its first option as the strategy says; else the valid answer of the file to the question of its title, or under cancel a cancellation if there is none. |
| HeadlessReplies.RequestTaken | src/headless-answers.ts:162-194 | A select request of unknown title waits under a timer of its own; one of known title is claimed exactly when it is replied to; other kinds are left alone. |
| HeadlessAnswers.EveryRequestCounted | src/headless-answers.ts:123-194 | In every run answered, defaulted and armed timers add up to the select requests, each request gets at most one reply, under its own id. |
| HeadlessAnswers.StrandedIff | src/headless-answers.ts:149-155 | A claimed request is left without reply exactly when its question arrives while it waits, the strategy is first_option and no valid answer exists. |
| HeadlessAnswers.LateQuestionStrands | src/headless-answers.ts:149-155 | A run in which this happens. |
| HeadlessAnswers.StrandedForGood | src/headless-answers.ts:149-155 | Such a request gets no reply in any further run. |
| HeadlessAnswers.CancelStrandsNone | src/headless-answers.ts:276-280 | Under the cancel strategy no run leaves a claimed request without reply and timer. |
| HeadlessAnswers.ObserveReachesIff | src/headless-answers.ts:148-155 | A waiting request is taken up by an observed event if and only if its title is known then and it is the request deferred under it. |
| HeadlessAnswers.ReachIff | src/headless-answers.ts:177-192 | A waiting request goes out of reach at a step if and only if a request with its title is deferred over it or another one with that title times out. |
| HeadlessAnswers.ReachableIffOneEachTitle | src/headless-answers.ts:123-194 | Along a run every waiting request stays in reach of its answer if and only if no two ever wait under one title. |
| HeadlessAnswers.SharedTitleLosesAnswer | src/headless-answers.ts:177-178 | A run with two requests under one title: the first timer takes the second out of reach. |
| DataVault.GetAfterSet | packages/coworker-vault/src/data-vault.ts:94-131 | After a successful set, get returns the fields and time just set whichever scope was chosen; entries in other files stay. |
| DataVault.SetWritesOneDirectory | packages/coworker-vault/src/data-vault.ts:83-131 | A successful set writes entry and sidecar line in one directory: the workspace one if forced or present, else the global one; it keeps the time of creation and touches nothing else. |
| DataVault.LastSetWins | packages/coworker-vault/src/data-vault.ts:94-151 | In every run from empty directories, get returns what the last successful set of a file wrote until a call touches that file again. |
| DataVault.SetFailsIff | packages/coworker-vault/src/data-vault.ts:83-104 | A set fails exactly without a workspace to force, and then changes nothing, or on an unreadable file in the chosen directory. |
| DataVault.GetFinds | packages/coworker-vault/src/data-vault.ts:72-151 | get takes the workspace file if there is one, else the global one: its entry, the error if it is unreadable, not found if there is neither. |
| DataVault.RemoveUncovers | packages/coworker-vault/src/data-vault.ts:72-81 | Removing a workspace entry uncovers the global one; removing a global one leaves none; nothing to remove is an error. |
| DataVault.RemoveUndoesSet | packages/coworker-vault/src/data-vault.ts:94-167 | Removing what was set where nothing was leaves every lookup as before. |
| DataVault.SidecarsSyncIff | packages/coworker-vault/src/data-vault.ts:191-199 | Both sidecars equal the entries' times over all runs of set and remove on some references if and only if these have distinct file names. |
| DataVault.LookupAgrees | packages/coworker-vault/src/data-vault.ts:169-175 | With sidecars in sync, lookupLastModified is the time in the entry get returns, and null exactly when get finds none. |
| DataVault.ParseFormat | packages/coworker-vault/src/data-vault.ts:50-58 | Parsing inverts formatting on exactly the well-formed references. |
| DataVault.ParseMeans | packages/coworker-vault/src/data-vault.ts:50-58 | A reference parses to exactly the two parts around its colon, each a lower-case letter followed by letters, digits and dashes. |
| DataVault.FormatParse | packages/coworker-vault/src/data-vault.ts:50-58 | What parses is well formed and formats back to itself. |
| DataVault.SharedFile | packages/coworker-vault/src/data-vault.ts:68-70 | Two well-formed references with the same file name. |
| DataVault.HyphenFreeEngines | packages/coworker-vault/src/data-vault.ts:68-70 | References to engines without a hyphen never share a file. |
| ArtifactSlug.DeriveSlug | packages/coworker-artifacts/src/slug.ts:7-22 | The chain of replacements computes the words of the folded name joined by dashes, cut to 64 characters, or the time stamp. |
| ArtifactSlug.DerivedMeans | packages/coworker-artifacts/src/slug.ts:7-22 | The slug in characters: letters and digits as they come with one dash for whatever stands between two of them, of that at most 64 characters without a dash at the end, or the time stamp behind artifact- if nothing is left. |
| ArtifactSlug.CollapseIsIdle | packages/coworker-artifacts/src/slug.ts:13-14 | Collapsing dashes after the first replacement changes nothing. |
| ArtifactSlug.DerivedResolves | packages/coworker-artifacts/src/slug.ts:7-22 | Every derived slug is accepted by the URI parser and returned unchanged. |
| ArtifactSlug.DerivedTwice | packages/coworker-artifacts/src/slug.ts:7-22 | A derived slug is its own slug, for every folding that leaves lower-case letters, digits and dashes alone. |
| ArtifactSlug.NextCollisionSlug | packages/coworker-artifacts/src/slug.ts:24-31 | The first candidate not taken, or failure with all 101 taken. |
| ArtifactSlug.NeverRunsOut | packages/coworker-artifacts/src/slug.ts:24-31 | With at most 100 slugs taken some candidate is free. |
| ArtifactSlug.CandidateResolvesIff | packages/coworker-artifacts/src/resolve-uri.ts:9-20 | A numbered slug resolves if and only if base, dash and number fit in 64 characters. |
| ArtifactSlug.ShortBasesResolve | packages/coworker-artifacts/src/resolve-uri.ts:9-20 | With a base of at most 60 characters every candidate resolves. |
| ArtifactSlug.ResolvesIff | packages/coworker-artifacts/src/resolve-uri.ts:9-20 | A URI resolves to its slug if and only if the slug matches the expression; the other checks never decide. |
| ArtifactSlug.UriResolvesIff | packages/coworker-artifacts/src/resolve-uri.ts:9-20 | The URIs that resolve, in characters: artifact:// and 1 to 64 lower-case letters, digits and inner dashes. |
| MigrationRunner.MigrationRunner.Register | packages/coworker-utils/src/migration-runner.ts:15-28 | Refuses a target not above its source, else keeps the list sorted by source, stably. |
| MigrationRunner.KeptBySource | packages/coworker-utils/src/migration-runner.ts:24-27 | The list kept ascends by source, holds what was registered, and meets first from each version what was registered first. |
| MigrationRunner.MigrationRunner.LatestVersion | packages/coworker-utils/src/migration-runner.ts:30-34 | The highest target registered for the kind. |
| MigrationRunner.MigrationRunner.Migrate | packages/coworker-utils/src/migration-runner.ts:36-49 | The loop terminates and gives what the registrations in their order define. |
| MigrationRunner.MigratesToLatest | packages/coworker-utils/src/migration-runner.ts:36-49 | Success stops exactly at the latest version. |
| MigrationRunner.MigratesIffFirstChain | packages/coworker-utils/src/migration-runner.ts:36-49 | For every list of forward migrations, migrate yields a value if and only if the chain that takes the first registered migration of each version reaches the latest version and composes to it. |
| MigrationRunner.FailsWhereStuck | packages/coworker-utils/src/migration-runner.ts:42-47 | When it fails it has followed that chain to a version short of the latest, from where no migration goes on or the first one throws on what the data has become. |
| MigrationRunner.UpToDateIff | packages/coworker-utils/src/migration-runner.ts:37-38 | Data stays as it is, at its version, if and only if no migration leads beyond it. |
| MigrationRunner.MigratesIffChain | packages/coworker-utils/src/migration-runner.ts:42-47 | With one migration per source version, any chain of registered migrations will do. |
| MigrationRunner.OrderIrrelevant | packages/coworker-utils/src/migration-runner.ts:25-26 | Then registration order does not matter. |
| MigrationRunner.DeadEndDespiteChain | packages/coworker-utils/src/migration-runner.ts:43-46 | With two migrations from one version the first leads into a dead end although the second reaches the latest. |
| SeedDefaults.MaybeSeedDefaultPackages | src/seed-defaults.ts:202-289 | Flags before environment before setting decide; then one launch reconciles packages, skill paths and quiet patterns, or nothing without targets. |
| SeedDefaults.Reconcile | src/seed-defaults.ts:224-255 | The loop appends targets never seeded and not present, once. |
| SeedDefaults.LaunchTwice | src/seed-defaults.ts:202-289 | A launch repeated without edits changes nothing. |
| SeedDefaults.SeedsByPrecedence | src/seed-defaults.ts:165-182 | The first switch that says something decides (no-flag, with-flag, no-variable, variable, setting), and without any nothing is seeded. |
| SeedDefaults.LaunchSeedsIff | src/seed-defaults.ts:188-350 | Behind a launch a list has an item if and only if it had it, or the launch seeds and the item is a target (an enabled catalog source, an existing harness path, the quiet pattern of a target) that was not on record. |
| SeedDefaults.LaunchInOrder | src/seed-defaults.ts:233-242 | What a launch adds it adds at the end, in the order of the catalog and of the harness paths. |
| SeedDefaults.StepRespectsRecord | src/seed-defaults.ts:231-255 | The record only grows; a launch removes nothing and adds only what was not on record and then is. |
| SeedDefaults.AddedOnceAtMost | src/seed-defaults.ts:231-255 | Over any interleaving of launches and user edits, an item is added by at most one launch ever, by none if it was on record. |
| SeedDefaults.RemovedStaysOut | src/seed-defaults.ts:232-239 | A recorded item that is not in the list stays out of it through every run in which the user does not put it back. |
| SeedDefaults.LateHarnessIsSeededIff | src/seed-defaults.ts:322-350 | A harness path missing at one launch is among the skills after the next if and only if that one seeds, finds it and has no record of it. |

## Left out

- RuntimeInvariants.TotalTimerEndsTheWait: says that the timer can fire and what it then does; that timers do fire is the event loop's.
- RuntimeInvariants.SettledExactlyOnce: speaks of cells only; a pending snapshot has no timer and need not settle while its kernel stays silent (at most one answer each is part of the invariant).
- ArtifactRpcInvariants.WaitingCellCanBeServed: gives a schedule; no fairness between parent and kernel is modelled, and only one child at a time.
- ResourceSync.SyncResourceDir: which part was copied before a failure is open, as directories may be read in any order; symlinks, permissions and the choice between cpSync and its fallback are not modelled.
- CellTreeText.FormatTreeText: a cell brings its value as JSON text; lengths and cuts count characters, not UTF-16 units.
- NdjsonChannel.WrittenReadsBack: JSON is any pair of functions that emits no newline and no empty line and parses back; UTF-8 decoding of split characters is the stream's.
- DataVault.SidecarsSyncIff: starts from empty directories, the workspace one configured or not; file names are compared as strings, whatever the file system makes of them; temporary files and audit records are not modelled.
- ArtifactSlug.DerivedTwice: lower-casing and NFKD are a function with the one property it needs.
- SecretPatterns.ScanComplete: a text is a sequence of characters, not of UTF-16 units; the four expressions are modelled by their matches, not by a regular-expression engine.
- SeedDefaults.MaybeSeedDefaultPackages: records are sets; lower-casing of environment values covers the letters A to Z.
- MigrationRunner.MigrationRunner.Migrate: versions are integers, functions numbers with a total effect that may be a throw.
- Timers, spawns and exits are steps in any order; no real time, no operating system, no delivery of signals.
- The manager's calls are single steps under the scratchpad lock; interleaving a removal or a second attach with a running call is not modelled, nor are the lock file itself and takeover.
- kernel_at_cell_id, snapshots on disk, recovery notes, bindings, sessions, save and detach: metadata that neither journal nor leaf depends on.
- A directory a failed attach leaves behind has metadata and an empty journal; corrupt metadata is not modelled.
- Warning and error texts are represented by their kind and the ids in them.
- Object property lookups on prototype names, `NaN` versions and other accidents of JavaScript values.
- Secret environment variables and warnings about unused answers of the answer injector.
- Command line, daemon, memory database, collectors, MCP and Discord clients, user interface.
