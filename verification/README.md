# Verification of the version store, its repair tools and the text protocols around them

This Dafny project models the parts of the system whose correctness depends on more than one function, and proves
what they promise over every input, every run or every interleaving.

- **Version store and repair.** `VersionHistory` is the project history: root, scope hashes, head, log, the two
  compare-and-swap (CAS) updates and the publish. `DamagedFolders` scans a content-addressed tree for dangling folders,
  `RecoverySearch` looks for surviving subtrees, `FolderGraft` and `FolderRepair` graft them back. `RootRecovery` plans
  and applies the recovery of a missing project root by two separate CASes, interleaved with arbitrary user publishes.
- **Conflict markers.** `MarkerScan` works on line kinds only and shows that the nested scan is a single pass.
  `ConflictMarkers` parses texts, `ConflictResolve` splices the chosen sides, `ConflictReopen` tells from the unresolved
  lines when a fixed side leaves a conflict.
- **Workspace files.** `WorkspaceWrite` is the optimistic save as a state machine with arbitrarily many writers,
  outside changes and failures at each step. `WorkspaceRemove` is the recursive removal with one shared budget.
- **Replay store.** `EventStore` compares the bounded rings and the index with an unbounded log.
- **Smaller cores.** `ShellPrompt` (quoting against a POSIX lexer, profile slugs, whole command lines), `FolderWalk`
  (dropping and picking a folder), `ShellFrames` (newline framing under any chunking), `MigrationRequirements`
  (dependency closure).

`Text` and `ObjectStore` hold what the others share; `Positions` says which elements of a list an operation returns, by
their positions. Code that changes state step by step is a class or a method with
loops, proved equal to a function of its inputs or its old state; the theorems are about those functions.
What such a function computes is stated once more without it, by stored objects, log positions, lines or characters
(`ObjectStore.WholeIff`, `RecoverySearch.RecoversFrom`, `VersionHistory.SinceIs`, `RootRecovery.AppliedRecord`,
`EventStore.ReplaySends`, `ConflictMarkers.ParseUnique`, `ConflictReopen.PickKeeps` and others below).

## What the proofs settle

- A folder repair is exact under two conditions that can be checked before applying, because the trees the grafts are
  going to write are functions of the store as it was (`FolderRepair.WrittenExactly`, `FolderRepair.NewRootKnown`).
  The recovered folders read as their replacements **if and only if** none of those trees has the id of an object that is
  listed but cannot be fetched (`FolderRepair.RecoveredIff`): storing never writes over a listed object
  (`backend/src/version_engine/storage/object_store.py:203`). Then a rescan reports the old damage minus the recovered
  folders **if and only if** no folder that stays damaged misses one of those trees (`FolderRepair.AppliedRepairExact`).
  Both can fail (`FolderRepair.GraftCanStick`, `FolderRepair.GraftCanHeal`). Grafting always changes the root, so the
  tool's answer "unchanged" never occurs (`FolderRepair.GraftChangesRoot`).
- Applying a root recovery is safe in every interleaving **if and only if** the plan replaces the root by CAS, or the
  root it names was still current when the scope hash was read (`RootRecovery.SafeIff`). The planner reads root and
  scope hash separately, so a publish between the two reads of a healthy project makes a `cache_stale` plan whose
  application reports True and puts the old root into the root-scope hash (`RootRecovery.TornReadBreaks`).
- `SafeIff` assumes that no user brings back the stale root-scope hash. Without that, True is wrong **if and only if** a
  publish was accepted after the repairer turned to its scope CAS and the last such one left the planned root-scope hash
  under a root other than the recovery root (`RootRecovery.WrongTrueIff`); any such publish does it (`RootRecovery.StaleReinstallBreaks`).
- After a publish has been accepted, the root is the users' **unless and only unless** the root CAS found that publish
  to have brought back the very root the plan names, and nobody published since (`RootRecovery.PublishWinsIff`). When
  the plan saw root and root-scope hash agree, this cannot happen (`RootRecovery.PublishWins`). When the root-scope hash
  was stale it can, and apply then answers False with the root taken (`RootRecovery.RootReinstallTakesRoot`).
- A publish keeps root, root-scope hash, head and last log entry in agreement **if and only if** a root-scope publish
  passes an empty scope hash or the new root (`VersionHistory.PublishAgreesIff`). The previous scope hash is exact for
  every scope but the root. For the root it is exact **if and only if** the newest root-scope entry holds the hash that
  the newest entry of any scope left behind (`VersionHistory.PreviousRootScopeHashIff`), which can fail
  (`VersionHistory.PreviousRootScopeHashCanLag`).
- Resolving leaves no conflict when no chosen replacement brings in an open line. "Ours" itself can bring one in, and
  then the result can hold a conflict again (`ConflictResolve.OursCanReopen`). On the unresolved lines: choosing ours
  leaves a conflict **if and only if** an open line inside some block's ours side is followed by a separator outside all
  blocks and then a close line outside all blocks or inside an ours side (`ConflictReopen.OursReopensIff`); choosing
  theirs, **if and only if** an open line inside a theirs side is followed by a separator outside all blocks or inside a
  theirs side and then a close line outside all blocks (`ConflictReopen.TheirsReopensIff`).
- In front of a CRLF a marker is recognised **if and only if** it has no label (`ConflictMarkers.ReturnHidesLabel`). So a
  text whose marker lines end in CRLF has a block **if and only if** an unlabelled open line, a separator and an
  unlabelled close line occur in order (`ConflictMarkers.ReturnParseIff`), and every small labelled conflict that is
  found with LF is overlooked with CRLF (`ConflictMarkers.ReturnHidesConflict`).
- A save never loses what its second read could see. A native save after that read can be lost, as the comment at
  `backend/agent-worker/workbench-files.py:163` concedes (`WorkspaceWrite.UnseenSaveCanBeLost`). A replacement overwrites
  the revision it expects **if and only if** nothing happened to the name since its second read, or the last thing that
  happened left a file of that revision (`WorkspaceWrite.ReplacedExpectedIff`).
- An event store with a limit of zero raises IndexError on every call, and one with a negative limit ValueError
  (`EventStore.StoreFailsIff`).
- Dropping and picking a folder agree **if and only if** the folder's own name is not blocked, apart from one odd folder
  (`FolderWalk.WalkersAgreeIff`): picking never checks that name.
- A chunked reader never raises on lines of up to 98304 bytes, which is the best possible bound, and always raises on a
  terminated line of 131072 bytes (`ShellFrames`).

## Assumptions

Object ids are ideal hashes: no two entry lists share one, and a tree's id ranks above the ids of the folders it lists
(`FolderGraft.IdealHash`, `FolderGraft.RankedHash`; `FolderGraft.IdealHashExists` shows that the two can be met). A
listed tree id holds that tree or an object that cannot be fetched (`FolderGraft.ContentAddressed`). The scan
and the searches assume no more of a store than that some rank falls along every directory entry. Trees have
unique, non-empty, slash-free names, as `decode_tree` enforces. SHA-256 revisions are an arbitrary function from contents
to text. Event ids and temporary file names are parameters that the caller draws freshly. JavaScript strings are
sequences of characters, and `toLowerCase` is a parameter.

## Model

| member | source | states |
|---|---|---|
| `ObjectStore.MissingAntichain` | backend/scripts/repair_damaged_folders.py:79-86 | no damaged folder lies inside another one |
| `ObjectStore.ResolveIff` | backend/scripts/repair_damaged_folders.py:39-60 | a path resolves to an id iff the folder entries on the way lead there one by one |
| `ObjectStore.MissingIff` | backend/scripts/repair_damaged_folders.py:79-86 | a folder is damaged iff the entries on the way lead to its id and nothing is stored under it |
| `ObjectStore.WholeIff` | backend/src/version_engine/write_engine/tree_objects.py:87-137 | a tree is whole iff every object its paths lead to is stored and can be fetched, and every file listed there is stored |
| `ObjectStore.HitsUnreadableIff` | backend/src/version_engine/write_engine/tree_objects.py:104-116 | a walk meets an object that cannot be fetched iff some path leads to one |
| `DamagedFolders.SegmentsOfPathString` | backend/scripts/repair_damaged_folders.py:82 | a reported path string splits back into exactly the names it was built from |
| `DamagedFolders.PathStringIs` | backend/scripts/repair_damaged_folders.py:82 | a path is reported as its names joined by single slashes |
| `DamagedFolders.SegmentsExactly` | backend/scripts/repair_damaged_folders.py:43 | navigation goes by the parts between slashes, in order, but for the empty ones |
| `DamagedFolders.Navigate` | backend/scripts/repair_damaged_folders.py:39-60 | the loop returns exactly what the non-empty segments resolve to through present trees, or None |
| `DamagedFolders.ScanDamagedDirs` | backend/scripts/repair_damaged_folders.py:63-87 | terminates on every acyclic store; reports each path once, and exactly the directory entries with a missing object whose parent is reachable through present readable trees; the empty root and the missing root as in the source |
| `DamagedFolders.FindingsExact` | backend/scripts/repair_damaged_folders.py:69-87 | the depth-first findings are duplicate-free and are precisely the paths that resolve to a missing object |
| `DamagedFolders.VisitTop` | backend/scripts/repair_damaged_folders.py:71-86 | one turn of the worklist moves findings from pending to reported, loses none, and lowers the summed unfolded weight of the stack |
| `RecoverySearch.ClosedWalk` | backend/src/version_engine/write_engine/tree_objects.py:104-116 | a set of visited trees that is closed under subtrees, with all files present, makes the whole closure present |
| `RecoverySearch.FindMissingTreeObjects` | backend/src/version_engine/write_engine/tree_objects.py:87-137 | the answer lists exactly the folders and files that are recorded below the root but not stored; it is empty iff the root is whole; and it raises iff some path leads to an object that cannot be fetched |
| `RecoverySearch.FindRecoverySubtree` | backend/scripts/repair_damaged_folders.py:90-118 | the first whole scope tree if the search of the scopes gets there before one that cannot be read, else the oldest recorded root that resolves the path to a whole tree; no answer means no recorded root has it whole, and a raised search met an unreadable object first |
| `RecoverySearch.RecoversUnique` | backend/scripts/repair_damaged_folders.py:90-118 | that description leaves only one answer to the search |
| `RecoverySearch.RecordedRootsAt` | backend/scripts/repair_damaged_folders.py:106-111 | the searched roots are two for every log entry, in the order of the log |
| `RecoverySearch.RecoversFrom` | backend/scripts/repair_damaged_folders.py:90-118 | by scopes and log positions: the first scope for exactly this folder that ends the search wins if nothing of its tree is lost; otherwise the oldest entry with a root that holds something there which ends the search decides; no answer means there is none |
| `FolderGraft.GraftWrites` | backend/scripts/repair_damaged_folders.py:176-178 | a graft only adds trees and keeps the store content-addressed; it replaces exactly the subtree at a resolving path, and the path then resolves to it, iff none of the rebuilt trees has the id of a listed object that cannot be fetched; otherwise the new path ends in such an object |
| `FolderGraft.StaysStuck` | backend/scripts/repair_damaged_folders.py:177-178 | a path that ends in an object that cannot be fetched stays so, whatever is grafted elsewhere |
| `FolderGraft.GraftRehash` | backend/scripts/repair_damaged_folders.py:177-178 | where a graft leads to, after other replacements, is computed from the store as it was, whether or not its trees can be written |
| `FolderGraft.GraftKeys` | backend/scripts/repair_damaged_folders.py:177-178 | the objects a graft writes are exactly the rebuilt trees on the way down to its path |
| `FolderGraft.IdealHashExists` | backend/scripts/repair_damaged_folders.py:177-178 | the assumptions on object ids can be met |
| `FolderGraft.RankedIsAcyclic` | backend/scripts/repair_damaged_folders.py:177-178 | under them no content-addressed store is circular, however much is grafted |
| `FolderGraft.SplicedStep` | backend/scripts/repair_damaged_folders.py:177-178 | a further graft at an incomparable path is one more simultaneous replacement |
| `FolderRepair.GraftAllSplices` | backend/scripts/repair_damaged_folders.py:176-178 | if their trees can be written, grafting the recovered paths one after the other equals replacing all of them at once |
| `FolderRepair.RescanExactIff` | backend/scripts/repair_damaged_folders.py:134-194 | a rescan of the new root reports the old damage minus the recovered paths iff the grafts wrote no object another damaged folder was missing |
| `FolderRepair.OtherPathsKeep` | backend/scripts/repair_damaged_folders.py:176-182 | a path that resolved before and is neither above nor below a recovered one resolves as before |
| `FolderRepair.AncestorsKeepEntries` | backend/scripts/repair_damaged_folders.py:176-182 | folders above a recovered one keep every entry, but for the hashes on the way down |
| `FolderRepair.RepairKeepsRest` | backend/scripts/repair_damaged_folders.py:176-182 | a folder not below a recovered path is still there: the same object if no recovered path leads through it, else a tree with the same names, kinds and ids but for the folders on the way |
| `FolderRepair.GraftOrderIrrelevant` | backend/scripts/repair_damaged_folders.py:177-178 | any two orders of the same recovered folders give the same new root, if the trees of both can be written |
| `FolderRepair.NewRootKnown` | backend/scripts/repair_damaged_folders.py:176-178 | the new root is a function of the old store, the old root and the replacements alone, if the trees can be written |
| `FolderRepair.WrittenExactly` | backend/scripts/repair_damaged_folders.py:176-178 | the grafts write exactly the trees computed from the old store, if these can be written |
| `FolderRepair.RecoveredIff` | backend/scripts/repair_damaged_folders.py:176-182 | after the grafts every recovered folder resolves to its replacement iff none of the trees computed from the old store has the id of a listed object that cannot be fetched |
| `FolderRepair.GraftCanStick` | backend/scripts/repair_damaged_folders.py:176-182 | for every ideal hash, a store in which a recovered folder cannot be read after the repair |
| `FolderRepair.AppliedRepairExact` | backend/scripts/repair_damaged_folders.py:134-194 | on every sound store: each replacement stays whole and the grown store sound; each recovered folder resolves to its replacement iff the computed trees can be written; and then the rescan reports the old damage minus the recovered folders iff no folder that stays damaged misses one of those trees |
| `FolderRepair.GraftCanHeal` | backend/scripts/repair_damaged_folders.py:176-182 | for every ideal hash, a store in which recovering one folder also heals another |
| `FolderRepair.GraftChangesRoot` | backend/scripts/repair_damaged_folders.py:179-181 | grafting a recovered folder always changes the root |
| `FolderRepair.RepairRepo` | backend/scripts/repair_damaged_folders.py:134-194 | every outcome of the tool while users publish before each search and before the CAS: what was recovered is settled for every damaged folder against the scope table and the log its own search read, dry runs included; a failed run names the search that raised; nothing is touched unless applied; the root moves by one CAS that loses to any other root; the exit code is 1 exactly then; "unchanged" never occurs |
| `VersionHistory.HistoryManager.PublishProjectUpdate` | backend/scripts/scenario_smoke.py:220-243 | the state after a publish is the atomic publish step, and the answer is whether the old root matched |
| `VersionHistory.PublishEffect` | backend/scripts/scenario_smoke.py:220-243 | an accepted publish field by field: root, head, the new entry, the audit, and the hash and head of every scope afterwards; a refused one changes nothing |
| `VersionHistory.HistoryManager.CasUpdateScopeHash` | backend/scripts/scenario_smoke.py:203-211 | the scope CAS swaps exactly one scope's hash, and its head when one is given, iff the old hash matched |
| `VersionHistory.HistoryManager.CasUpdateRootHash` | backend/scripts/scenario_smoke.py:213-218 | the root CAS changes the root alone, iff the old root matched |
| `VersionHistory.CasEffect` | backend/scripts/scenario_smoke.py:203-218 | what the two CASes change, and what every scope reads afterwards |
| `VersionHistory.HistoryManager.GetSince` | backend/scripts/scenario_smoke.py:168-179 | the statements return what `Since` defines |
| `VersionHistory.SinceIs` | backend/scripts/scenario_smoke.py:168-179 | by log positions: of the entries after the first one with the anchor's id, and of the named scope only, the newest `limit`, each once, in log order |
| `VersionHistory.SinceNewest` | backend/scripts/scenario_smoke.py:168-179 | without anchor and scope, a limit keeps the end of the log |
| `VersionHistory.HistoryManager.GetPreviousScopeHash` | backend/scripts/scenario_smoke.py:181-193 | the loop equals the backward search for the newest entry of the scope |
| `VersionHistory.PreviousScopeHashFrom` | backend/scripts/scenario_smoke.py:181-193 | by log positions: before the named commit the newest entry of the scope with a hash, without such a commit the newest entry of the scope |
| `VersionHistory.PublishAgreesIff` | backend/scripts/scenario_smoke.py:220-243 | an accepted publish re-establishes agreement of root, root-scope hash, head and last entry iff a root-scope publish passes no other scope hash |
| `VersionHistory.PublishAgreesSpelled` | backend/scripts/scenario_smoke.py:220-243 | the same on the fields of the state and the arguments of the publish |
| `VersionHistory.RunAgrees` | backend/scripts/scenario_smoke.py:220-243 | over every run of publishes agreement holds, the log only grows, and each accepted publish starts from the previous entry's root |
| `VersionHistory.SinceExactIff` | backend/scripts/scenario_smoke.py:162-179 | asking for what follows an entry is exact iff no earlier entry reuses its commit id |
| `VersionHistory.ResumeReconstructs` | backend/scripts/scenario_smoke.py:168-243 | with unique ids, what was seen plus what follows the last seen commit is the whole history, after any further run |
| `VersionHistory.ScopeHashIsLast` | backend/scripts/scenario_smoke.py:220-243 | after any run a sub-scope's hash is that of its newest log entry |
| `VersionHistory.PreviousScopeHashExact` | backend/scripts/scenario_smoke.py:181-193 | for every sub-scope the previous scope hash is the hash it had just before the given commit |
| `VersionHistory.RootScopeHashIsLast` | backend/scripts/scenario_smoke.py:220-243 | after any run the stored root-scope hash is what the newest entry of any scope left behind |
| `VersionHistory.PreviousRootScopeHashIff` | backend/scripts/scenario_smoke.py:181-193 | for the root scope, in any run with unique ids, the previous scope hash is the hash held before the commit iff the newest root-scope entry holds what the newest entry of any scope left behind |
| `VersionHistory.PreviousRootScopeHashCanLag` | backend/scripts/scenario_smoke.py:181-193 | a run of three publishes in which that fails |
| `RootRecovery.PlanProjectRootRecovery` | backend/scripts/repair_missing_project_roots.py:66-115 | the loop yields the plan defined from one state of the history |
| `RootRecovery.PlanKeepsRoot` | backend/scripts/repair_missing_project_roots.py:84-98 | the plan for a readable root keeps it, is healthy iff the root-scope hash is the root, and names the newest entry among the last `limit` that records it |
| `RootRecovery.PlanRecoversNewest` | backend/scripts/repair_missing_project_roots.py:81-115 | the plan for a missing root is recoverable iff one of the last `limit` log entries records a readable root, and takes root, commit and time from the newest such entry |
| `RootRecovery.PlanIsNewestReadable` | backend/scripts/repair_missing_project_roots.py:100-115 | a missing root is recoverable iff some listed root still decodes, and the newest such root is chosen |
| `RootRecovery.PlanReplacesRoot` | backend/scripts/repair_missing_project_roots.py:100-110 | a recovery root is readable and differs from the missing root |
| `RootRecovery.ApplyProjectRootRecovery` | backend/scripts/repair_missing_project_roots.py:118-157 | the tool takes exactly the repairer's atomic steps, error cases included |
| `RootRecovery.AppliedCases` | backend/scripts/repair_missing_project_roots.py:118-157 | every way an undisturbed apply ends, guard by guard, with all it has changed by then, the audit record included |
| `RootRecovery.AppliedRecord` | backend/scripts/repair_missing_project_roots.py:145-157 | an undisturbed round records the old root, the new root, whether they differ, and commit and time of the entry the new root comes from |
| `RootRecovery.UndecidedAlways` | backend/scripts/repair_missing_project_roots.py:131-142 | in every interleaving, before its last CAS the repairer is either undisturbed or certain to be refused |
| `RootRecovery.SafeIff` | backend/scripts/repair_missing_project_roots.py:66-157 | applying is safe in every interleaving iff the plan restores by CAS or its root was current when the scope hash was read |
| `RootRecovery.TrueMeansRecovered` | backend/scripts/repair_missing_project_roots.py:118-157 | a one-snapshot plan that ends in True passed a scope CAS that left root and root-scope hash at the recovery root with no publish since the plan |
| `RootRecovery.PublishWinsIff` | backend/scripts/repair_missing_project_roots.py:128-142 | in any interleaving with a publish accepted since the plan, the root is the last accepted publish's iff it is not the case that the root CAS took it from a publish of the very root the plan names with none accepted since |
| `RootRecovery.OnlyReinstallTakes` | backend/scripts/repair_missing_project_roots.py:128-142 | without a publish of the missing root itself, the root is never taken |
| `RootRecovery.AgreedPlanIsEnough` | backend/scripts/repair_missing_project_roots.py:128-142 | where the plan saw root and root-scope hash agree and users keep them so, not bringing back the stale hash means not bringing back the missing root |
| `RootRecovery.PublishWins` | backend/scripts/repair_missing_project_roots.py:128-142 | in that case a publish accepted since the plan keeps the root at every moment |
| `RootRecovery.RootReinstallTakesRoot` | backend/scripts/repair_missing_project_roots.py:128-142 | with a stale root-scope hash, republishing the missing root makes apply answer False with the recovery root in place of the users' |
| `RootRecovery.NoTrueAfterPublish` | backend/scripts/repair_missing_project_roots.py:128-157 | once a publish is accepted before the scope CAS, and none brings back the stale scope hash, no continuation returns True or records a recovery |
| `RootRecovery.AuditedIffTrue` | backend/scripts/repair_missing_project_roots.py:144-157 | in any interleaving exactly one recovery is audited when apply returns True and none otherwise |
| `RootRecovery.TrueIsRecorded` | backend/scripts/repair_missing_project_roots.py:143-157 | in any interleaving a True result has recorded one recovery and no other |
| `RootRecovery.RecordedIsPlanned` | backend/scripts/repair_missing_project_roots.py:143-157 | in any interleaving the audit log only grows, and a recorded recovery names the planned roots, commit and time |
| `RootRecovery.TornReadBreaks` | backend/scripts/repair_missing_project_roots.py:70-99 | a publish between the plan's reads makes apply report True and spoil the root-scope hash |
| `RootRecovery.WrongTrueIff` | backend/scripts/repair_missing_project_roots.py:131-142 | in any interleaving the scope CAS succeeds without root and root-scope hash becoming the recovery root iff a publish was accepted after the repairer turned to the scope CAS and the last one left the planned root-scope hash under another root |
| `RootRecovery.StaleReinstallBreaks` | backend/scripts/repair_missing_project_roots.py:131-142 | every such publish, in every state, makes apply return True with the users' root and the recovered scope hash |
| `RootRecovery.RepairConverges` | backend/scripts/repair_missing_project_roots.py:47-157 | undisturbed, one round from any state that can be repaired ends in a healthy plan; any other state is left alone |
| `RootRecovery.RepairIdempotent` | backend/scripts/repair_missing_project_roots.py:118-157 | a second round changes nothing |
| `RootRecovery.InterruptedRepairResumes` | backend/scripts/repair_missing_project_roots.py:128-142 | a repair stopped between its CASes is finished by the next round with the same root, scope hashes, log and head |
| `MarkerScan.ScanIff` | frontend/lib/conflictMarkers.ts:30-51 | the scan from an open line succeeds iff a separator and then a close line follow |
| `MarkerScan.NoSpansAfterFailure` | frontend/lib/conflictMarkers.ts:48-51 | once a scan has failed there are no further blocks at all |
| `MarkerScan.SpansAreOnePass` | frontend/lib/conflictMarkers.ts:21-62 | the quadratic scan finds exactly the blocks of a single linear pass with three modes |
| `MarkerScan.SpansOrdered` | frontend/lib/conflictMarkers.ts:53-61 | blocks are strictly ordered and disjoint |
| `MarkerScan.SpansIffConflict` | frontend/lib/conflictMarkers.ts:21-62 | there is a block iff an open, a separator and a close line occur in this order |
| `ConflictMarkers.TagIsPattern` | frontend/lib/conflictMarkers.ts:10-12 | the three patterns exclude each other, so one kind per line is enough |
| `ConflictMarkers.ParseConflictMarkers` | frontend/lib/conflictMarkers.ts:14-65 | the nested loops return the blocks of the defining scan, with and without the early return |
| `ConflictMarkers.PatternsSpelled` | frontend/lib/conflictMarkers.ts:10-12 | the three line patterns by characters |
| `ConflictMarkers.LabelSpelled` | frontend/lib/conflictMarkers.ts:27-46 | a label is what stands behind the mark, trimmed |
| `ConflictMarkers.ParseSpelled` | frontend/lib/conflictMarkers.ts:14-65 | by lines: each block has the first separator and the first close line behind its open line, the two sides between them and the labels; blocks are in order and apart; no open line that can be finished is left out |
| `ConflictMarkers.ParseUnique` | frontend/lib/conflictMarkers.ts:14-65 | only one list of blocks is like that |
| `ConflictMarkers.ShortcutIsSound` | frontend/lib/conflictMarkers.ts:15 | a text without seven `<` in a row has no block, so the shortcut never changes the result |
| `ConflictMarkers.HasConflictMarkers` | frontend/lib/conflictMarkers.ts:98-101 | true iff the text holds an open, a separator and a close line in order |
| `ConflictMarkers.RenderParse` | frontend/lib/conflictMarkers.ts:14-65 | rendering any segments and parsing the text returns exactly their conflicts with line numbers, sides and labels |
| `ConflictMarkers.ReturnHidesLabel` | frontend/lib/conflictMarkers.ts:10-12 | a marker line that ends in CR matches iff nothing but white space follows the marker |
| `ConflictMarkers.ReturnParseIff` | frontend/lib/conflictMarkers.ts:10-65 | if the marker lines end in CRLF, parsing treats labelled markers as text: there is a block iff an unlabelled open, a separator and an unlabelled close line occur in order |
| `ConflictMarkers.ReturnHidesConflict` | frontend/lib/conflictMarkers.ts:10-65 | with any labels, a small conflict that is found with LF is overlooked with CRLF |
| `ConflictMarkers.ReturnExample` | frontend/lib/conflictMarkers.ts:10-65 | one such text in full |
| `ConflictResolve.SortReverses` | frontend/lib/conflictMarkers.ts:75 | sorting the parsed blocks by descending start is reversing them |
| `ConflictResolve.SplicedIsForward` | frontend/lib/conflictMarkers.ts:77-93 | descending in-place splices equal one forward pass that keeps every outside line |
| `ConflictResolve.ResolveConflictMarkers` | frontend/lib/conflictMarkers.ts:67-96 | the loop returns the forward pass, whatever side or function is picked |
| `ConflictResolve.ResolveLeavesConflictIff` | frontend/lib/conflictMarkers.ts:67-96 | the resolved text has a block iff a line that came from a replacement opens one that later lines finish; markers left unfinished outside never matter |
| `ConflictResolve.ResolveLeavesNoConflict` | frontend/lib/conflictMarkers.ts:67-96 | if no replacement contains an open line, the resolved text parses to no block, for every input |
| `ConflictResolve.OursCanReopen` | frontend/lib/conflictMarkers.ts:77-87 | a text whose resolution by "ours" holds a conflict again |
| `ConflictReopen.SideReopensIff` | frontend/lib/conflictMarkers.ts:67-96 | for either fixed side: the resolved text has a block iff, among the unresolved lines outside the blocks and in the kept sides, an open line of a side is followed by a separator and a close line |
| `ConflictReopen.PickKeeps` | frontend/lib/conflictMarkers.ts:67-96 | resolving to a side returns exactly the lines outside the blocks and those of the chosen side, but for an empty last line of it, each once, in order |
| `ConflictReopen.OursReopensIff` | frontend/lib/conflictMarkers.ts:77-87 | for "ours": iff an open line in an ours side is followed by a separator outside the blocks and a close line outside them or in an ours side |
| `ConflictReopen.TheirsReopensIff` | frontend/lib/conflictMarkers.ts:77-87 | for "theirs": iff an open line in a theirs side is followed by a separator outside the blocks or in a theirs side and a close line outside them |
| `WorkspaceWrite.WorkspaceDirectory.Write` | backend/agent-worker/workbench-files.py:133-184 | alone, a save succeeds iff the expected revision matches and the temporary name is free, then binds the name to the data and nothing else; otherwise nothing changes |
| `WorkspaceWrite.MachineIsWrite` | backend/agent-worker/workbench-files.py:133-184 | a lone undisturbed writer of the state machine ends with the directory and the outcome of the method, in every case |
| `WorkspaceWrite.SaveSpelled` | backend/agent-worker/workbench-files.py:133-184 | by what the name holds: when a save alone succeeds, what it binds, and which error it ends with |
| `WorkspaceWrite.RunKeepsInv` | backend/agent-worker/workbench-files.py:133-184 | the writers' invariant holds after every interleaving of writers, outside changes and failures |
| `WorkspaceWrite.DirectoryIsLog` | backend/agent-worker/workbench-files.py:133-184 | in every run the log of changes only grows, and the name is bound to what the newest change left |
| `WorkspaceWrite.SavedMeansInstalled` | backend/agent-worker/workbench-files.py:166-184 | a reported success installed the requested bytes in the requested way and returned their revision; when a writer is done its temporary file is gone, on every path but an error of the cleanup itself |
| `WorkspaceWrite.SavedSpelled` | backend/agent-worker/workbench-files.py:166-184 | behind a reported success stands one logged change by this writer, of the requested kind and with the requested bytes |
| `WorkspaceWrite.InstallsAreSafe` | backend/agent-worker/workbench-files.py:163-177 | creating never replaces anything, and a replacement's second read saw a file with the expected revision |
| `WorkspaceWrite.SavesFormChain` | backend/agent-worker/workbench-files.py:166-179 | a replacement undisturbed since its second read expected the revision the previous save returned |
| `WorkspaceWrite.AtMostOneCreator` | backend/agent-worker/workbench-files.py:172-175 | while the name stays bound at most one of any number of racing creators succeeds |
| `WorkspaceWrite.UnseenSaveCanBeLost` | backend/agent-worker/workbench-files.py:163-177 | an outside save between second read and replace is overwritten although the writer reports success |
| `WorkspaceWrite.ReplacedExpectedIff` | backend/agent-worker/workbench-files.py:163-177 | in every run a replacement overwrites a file of the expected revision iff the name was left alone since its second read or the last change before it left such a file |
| `WorkspaceRemove.PartsIff` | backend/agent-worker/workbench-files.py:24-30 | accepted paths are exactly the joined lists of plain names within the length limit, and parse back to them |
| `WorkspaceRemove.Workspace.OpenDirectory` | backend/agent-worker/workbench-files.py:33-43 | opening step by step succeeds iff the path names a present directory |
| `WorkspaceRemove.Workspace.Remove` | backend/agent-worker/workbench-files.py:75-90 | succeeds iff the subtree has at most `budget` entries, then removes exactly it and lowers the shared budget by its size; stopped, it has removed fewer than `budget` entries, all strictly below the top, and leaves a well-formed tree |
| `WorkspaceRemove.Workspace.RemoveChildren` | backend/agent-worker/workbench-files.py:83-85 | the same for the loop over a directory's children, in any order |
| `WorkspaceRemove.StoppedGrows` | backend/agent-worker/workbench-files.py:75-90 | a child stopped by the shared limit stops its parent within the parent's own bound |
| `WorkspaceRemove.Workspace.ExecuteRemove` | backend/agent-worker/workbench-files.py:185-187 | the whole request: success iff the path is accepted and names a present entry with at most 10000 entries at or below it, and then exactly those are gone; every error with its condition; nothing outside the named subtree ever changes |
| `EventStore.InMemoryEventStore.Store` | backend/mcp_service/event_store.py:34-47 | the statements of a store call have exactly the effect of the defining step, failed calls included |
| `EventStore.InMemoryEventStore.ReplayEventsAfter` | backend/mcp_service/event_store.py:49-70 | the flag-driven loop sends exactly the non-null events after the given one |
| `EventStore.RunRefines` | backend/mcp_service/event_store.py:34-47 | over every run each ring is the last min(n, max) events of its stream's unbounded log, and the index holds exactly the events in the rings |
| `EventStore.RingIs` | backend/mcp_service/event_store.py:34-47 | after every run a ring is the end, at most `max` long, of the events of its stream in the order they were stored |
| `EventStore.RetainedIff` | backend/mcp_service/event_store.py:38-43 | an event is retained iff at most `max` events of its stream, itself included, were stored since |
| `EventStore.ReplayIsComplete` | backend/mcp_service/event_store.py:49-70 | replay after a retained event sends the non-null rest of its stream's log, in order and without a gap |
| `EventStore.ReplaySends` | backend/mcp_service/event_store.py:49-70 | by log positions: replay sends exactly the later events of the stream that carry a message, each once, in order |
| `EventStore.ReplayUnknownIff` | backend/mcp_service/event_store.py:54-56 | replay answers None, and sends nothing, iff the event was evicted or never stored |
| `EventStore.StoreFailsIff` | backend/mcp_service/event_store.py:38-43 | after any run a store call fails iff the limit is below one, with the stated error |
| `ShellPrompt.LexEscaped` | frontend/lib/accessPointCliPrompt.ts:55-57 | inside quotes the escaped value is read back unchanged whatever surrounds it, unless it holds a NUL |
| `ShellPrompt.QuoteRoundTrip` | frontend/lib/accessPointCliPrompt.ts:55-57 | a quoted value is read as exactly one word equal to it iff it is free of NUL |
| `ShellPrompt.LexLine` | frontend/lib/accessPointCliPrompt.ts:69-80 | a line of plain words, quoted values and bars is read as exactly those tokens, or not at all if a value holds a NUL |
| `ShellPrompt.CloneArgv` | frontend/lib/accessPointCliPrompt.ts:65-70 | the clone line is `git clone` with exactly the remote and a canonical directory |
| `ShellPrompt.CdArgv` | frontend/lib/accessPointCliPrompt.ts:71 | the next line changes into that directory |
| `ShellPrompt.RemoteArgv` | frontend/lib/accessPointCliPrompt.ts:77 | the remote is added as `origin`, exactly as given |
| `ShellPrompt.LoginArgv` | frontend/lib/accessPointCliPrompt.ts:138-146 | the login line is one pipe from the printed key into the login with exactly the given profile and address |
| `ShellPrompt.SlugCanonical` | frontend/lib/accessPointCliPrompt.ts:46-53 | every slug is non-empty, of a-z, 0-9 and single interior hyphens |
| `ShellPrompt.SlugIdempotent` | frontend/lib/accessPointCliPrompt.ts:46-53 | canonical names are their own slugs, so taking the slug twice is taking it once |
| `ShellPrompt.SlugIsWords` | frontend/lib/accessPointCliPrompt.ts:46-53 | the slug is the maximal runs of a-z and 0-9 joined by hyphens, or "folder" when there is none |
| `ShellPrompt.WordsParted` | frontend/lib/accessPointCliPrompt.ts:46-53 | any character other than a-z and 0-9 parts the words before it from those behind it |
| `ShellPrompt.SlugSpelled` | frontend/lib/accessPointCliPrompt.ts:46-53 | the slug is those words, of a-z and 0-9 only, with single hyphens between them |
| `FolderWalk.Collector.CollectDirectoryFiles` | frontend/lib/directoryPicker.ts:43-68 | the recursive picker appends exactly the items of the depth-first walk |
| `FolderWalk.DropWalk.Step` | frontend/lib/dropFiles.ts:108-167 | whichever activity resumes, and whatever batch a reader delivers, pushed items plus items still owed stay the same multiset and the remaining work shrinks |
| `FolderWalk.CollectDroppedFiles` | frontend/lib/dropFiles.ts:191-206 | under every schedule and batching a drop yields the multiset of the depth-first walk; the fallback list is used only without entries |
| `FolderWalk.PathBlockedBelow` | frontend/lib/uploadPolicy.ts:68-75 | a path is blocked iff its parent or its own name is |
| `FolderWalk.PathBlockedIff` | frontend/lib/uploadPolicy.ts:25-75 | a path is blocked iff a segment, trimmed, is one of the seventeen listed names |
| `FolderWalk.PackagesSkipped` | frontend/lib/dropFiles.ts:108-118 | a folder `node_modules` yields one marker, whatever is in it |
| `FolderWalk.WalkIsReport` | frontend/lib/dropFiles.ts:108-167 | the walk is the report of the full tree: each maximal blocked subtree became one marker, every other file is uploaded |
| `FolderWalk.WalkersAgreeIff` | frontend/lib/directoryPicker.ts:79-88 | both walkers yield the same multiset iff the root's name is not blocked, or its only child is a file named like the marker |
| `FolderWalk.DropAndPick` | frontend/lib/dropFiles.ts:191-206 | both entry points agree on every unblocked folder under every schedule |
| `ShellFrames.SplitFrames` | backend/agent-worker/workbench-shell.py:67-69 | the inner loop cuts off exactly the terminated lines and keeps the rest |
| `ShellFrames.Incoming` | backend/agent-worker/workbench-shell.py:61-69 | the reader delivers exactly the chunkwise frames and raises when they do |
| `ShellFrames.LinesRebuild` | backend/agent-worker/workbench-shell.py:67-69 | frames and rest make up the input again |
| `ShellFrames.LinesRoundTrip` | backend/agent-worker/workbench-shell.py:67-69 | newline-free lines written out are cut into themselves |
| `ShellFrames.FramesAreLines` | backend/agent-worker/workbench-shell.py:61-69 | a reader that does not raise delivers exactly the terminated lines of the concatenated input, however it was chunked |
| `ShellFrames.RaisesIff` | backend/agent-worker/workbench-shell.py:63-66 | it raises iff some chunk overflows the limit together with the unfinished line it continues |
| `ShellFrames.RaisesSpelled` | backend/agent-worker/workbench-shell.py:63-66 | in bytes: a chunk and what came since the last newline before it exceed 131072 |
| `ShellFrames.FramesBeforeRaise` | backend/agent-worker/workbench-shell.py:61-69 | a reader that raises has delivered the lines of the chunks before |
| `ShellFrames.ShortLinesNeverRaise` | backend/agent-worker/workbench-shell.py:63-66 | lines of at most 98304 bytes never raise with reads of at most 32768 bytes |
| `ShellFrames.LongerLineCanRaise` | backend/agent-worker/workbench-shell.py:63-66 | behind any longer unfinished line some next read raises |
| `ShellFrames.LongLineAlwaysRaises` | backend/agent-worker/workbench-shell.py:63-66 | a terminated line of 131072 bytes or more raises under every chunking |
| `ShellFrames.Sink.WriteAll` | backend/agent-worker/workbench-shell.py:86-87 | repeated partial writes deliver every byte once and in order |
| `MigrationRequirements.Select` | scripts/migration_dependencies.py:13-27 | terminates on cyclic graphs, selects exactly the reachable packages, and fails iff a reachable one is absent or unpinned |
| `MigrationRequirements.ClosedHoldsReached` | scripts/migration_dependencies.py:13-27 | any set with the seeds and all dependencies of its members holds everything reachable |
| `MigrationRequirements.ReachedIsLeast` | scripts/migration_dependencies.py:13-27 | every set with `pydantic`, `pyyaml` and the dependencies of its members holds all reachable packages |
| `MigrationRequirements.ByNameIs` | scripts/migration_dependencies.py:10-12 | of several packages with one name the last one counts |
| `MigrationRequirements.SortsUnique` | scripts/migration_dependencies.py:29-32 | a set has only one ordered listing |
| `MigrationRequirements.LessIff` | scripts/migration_dependencies.py:29-32 | strings are ordered by the first character in which they differ |
| `MigrationRequirements.Requirements` | scripts/migration_dependencies.py:9-37 | succeeds iff every reachable package is present, pinned and complete, and then lists each once, in order, with all its hashes |
| `MigrationRequirements.LineSpelled` | scripts/migration_dependencies.py:31-36 | a line holds the name, the version and one flag for each hash of the source distribution and the wheels, ascending |
| `MigrationRequirements.RequirementsSpelled` | scripts/migration_dependencies.py:28-37 | the text is such a line for each reachable package, in order, each ended by a newline |
| `MigrationRequirements.RequirementsUnique` | scripts/migration_dependencies.py:28-37 | the requirements text is fully determined by the lock file |
| `MigrationRequirements.OrderIrrelevant` | scripts/migration_dependencies.py:25-27 | the order in which dependencies are listed makes no difference |

## Left out

- FolderRepair.RepairRepo: the object store stays fixed while the tool works, although users publish; the scope table that each search reads is a parameter; a missing project root, whose scan result is not a path, is excluded.
- FolderGraft.Graft: the body of `graft_subtree` is not part of this model; it is given as replacing one path and rebuilding its ancestors, and as leaving a path alone on which it meets an object that cannot be fetched.
- DamagedFolders.ScanDamagedDirs: a tree body that `decode_tree` rejects would raise; such objects are counted as unreadable.
- RootRecovery.PlanProjectRootRecovery: one-state plans; plans from torn reads are covered by `SafeIff` and `TornReadBreaks` through `PlanFrom`. A repository without `get_scope_state` or `cas_update_scope` is not modelled.
- VersionHistory.HistoryManager.PublishProjectUpdate: message, author, changes and conflicts of an entry, the version index and the lock are dropped; each method is atomic.
- WorkspaceWrite.RunKeepsInv: the interleaved write is a state machine on values, one transition per file-system effect, because other writers act between the statements; a writer whose cleanup raises ends as `Stuck`, and then nothing is said of its temporary file; file modes, fsync, base64 and deflate are left out, and others never write to a temporary file that is not theirs.
- WorkspaceRemove.Workspace.Remove: nobody else changes the tree during a removal, and listing a directory while removing its entries returns each of them.
- EventStore.InMemoryEventStore.ReplayEventsAfter: replay is atomic; no event is stored while a callback awaits.
- ShellPrompt.Lex: unquoted characters other than letters, digits, blanks, `-`, `_`, `.`, `/`, `|`, quotes and backslashes are not read, so expansions and comments are outside the fragment; strings are characters, not bytes.
- FolderWalk.CollectDroppedFiles: entries that cannot be read reject the whole promise, which is not modelled, nor is the File object beyond its path.
- ShellFrames.Incoming: `json.loads` on a frame, and what frames then do to the terminal, are left out.
- MigrationRequirements.Requirements: reading TOML, entries without a name, and dependencies without a name are left out.
- Legacy object ids, incident rows and command-line parsing of the repair tools; the other classes of `scenario_smoke.py`.
- Listing, reading, moving and creating directories in `workbench-files.py`: single system calls.
- PTY handling, signals and output pumping in `workbench-shell.py`; the wording of the prompts in `accessPointCliPrompt.ts`.
- React components, network clients, settings validation, deployment scripts and database tooling: input and output, or single-branch checks.
