# Keramos, verified model

Keramos renders packages of YAML templates, installs them as releases on a
cluster and keeps a history of revisions. This project models the parts of it
that branch most and states what they are for, as theorems over every input,
every interleaving or every run. It consists of Dafny modules only, one file each;
`Basics` and `Trees` hold what several of them share.

* **Line diff** (`LineDiff`, `Hunks`, `Patch`, `UnifiedDiff`): the table, the
  backtrack, the grouping into hunks, and the strict patch that shows the hunks
  are right in both directions.
* **Release lifecycle** (`Records`, `Storage`, `Cluster`, `History`, `Steps`,
  `Install`, `Upgrade`, `Stops`, `Rollback`, `Uninstall`, `Rename`, `Prune`,
  `Lifecycle`): methods over a store of revisions and a cluster of objects in
  which every single call may fail. Failure is a nondeterministic choice, so a
  postcondition holds whatever fails.
* **Ordering and scheduling** (`StringOrder`, `ReleaseGraph`, `TopoSort`,
  `Levels`, `Workspace`, `Orchestration`): Kahn's algorithm in its two forms,
  and the concurrent level runner as interleaved steps.
* **Template engine** (`Text`, `Decimal`, `Stash`, `Include`, `Pipeline`,
  `Substitute`, `Control`, `Merging`, `Render`): tokens for expressions, includes, control
  flow, substitution and cleaning over an abstract evaluator. `Atoms` says what
  the text of an expression is made of; `Expressions`, `PipelineLaws`,
  `SubstituteLaws` and `ControlLaws` tell from that, and from what a template
  holds, what comes out.
* **Trees and checks** (`Trees`, `FieldDiff`, `FieldPatch`, `SmartDiff`,
  `NoisePaths`, `Schema`, `Validator`, `SchemaLaws`, `SchemaKeywords`,
  `SchemaRefs`, `Scan`, `Ranges`).

A manifest is a list of resources that carry two names: `key`, the group,
version, kind, namespace and name as written, which release code compares, and
`id`, the cluster object that is addressed once the namespace is resolved; its
`rank` is the place of its kind in the order of installation. The
ghost field `created` of the store holds what each revision recorded when it was
created; `Intact()` says that no stored revision differs from that.

## What the proofs found

* The release sort does not keep the declared order its comment promises
  (`TopoSort.DeclaredOrderIsNotKept`); `TopoSort.DeclaredOrderKeptIff` says when
  it does.
* After an upgrade, removal of dropped resources compares names as written. When
  a dropped document and a new one are the same object under two spellings, the
  upgrade deletes what it has just applied (`Upgrade.RemovalSparesManifest` is
  the exact condition, `Upgrade.RespelledResourceCollides` an input).
* The snapshot behind cleanup-on-fail takes a failed lookup for an absent object,
  so cleanup may delete what was there before (`Upgrade.CleanupSparesIff`,
  `Upgrade.UnansweredLosesObject`).
* An atomic rollback marks the previous revision deployed whatever it was; a
  CRD or force-delete failure is not rolled back at all (`Upgrade.Deploy`). On
  which clusters and manifests such a stop still leaves what a rollback would is
  `Stops.CrdStopIff` and `Stops.ForceStopIff`; `Stops.ForceFailureIsNotUndone` is
  an input on which it does not.
* An install demotes no other revision, and with a history limit it may prune
  the revision it has just created (`Install.FirstSurvivesIff`,
  `Install.InstallMayPruneItself`).
* Of release entries or workspace members that share a name only the last comes
  out of the sort, once for each of them (`TopoSort.TopoSortReleases`,
  `Levels.LevelsOf`); nothing is lost exactly when different entries have
  different names (`ReleaseGraph.NothingLostIff`).
* Adding a key with a null value shows up as a change from nothing to nothing
  (`FieldPatch.PatchIffNullsKept`, `FieldPatch.AddedNullIsLost`).
* Text that spells a token with a known number is replaced, and text that spells
  one right before an expression swallows the start of the real token
  (`Stash.StashRoundTripIff`, `Stash.TextMayCaptureToken`).
* A key that evaluates to the drop marker is kept as written, and a pass in
  another scope may evaluate it after all (`Substitute.SecondPassElsewhereIff`,
  `Substitute.DroppedKeyComesBack`).
* A text that starts with an expression and ends with a brace of its own is taken
  for one expression (`SubstituteLaws.LastBraceCloses`); every other text becomes
  its pieces in order (`SubstituteLaws.TextOfPieces`).
* Merging a list that names itself recurses without end
  (`Merging.SelfMergeIsEndless`). Merging goes on after n nested lists exactly
  when there is a chain of one more (`Merging.EndlessIffChain`), and where it comes
  to finitely many values it ends exactly when it comes back to none
  (`Merging.MergingEndsIff`).
* The schema validator lets null pass a single `object`, `array` or `string`
  type and accepts unknown type names (`SchemaLaws.SingleTypeIff`), next to which
  it also skips most other keywords (`SchemaKeywords.UnknownTypeHidesKeywords`), compares
  nested numbers by representation (`SchemaLaws.EqualityIff`), and counts every
  subschema against its reference limit (`SchemaLaws.NestingIsBounded`).
* A failed health gate ends even an atomic workspace run without a rollback
  (`Workspace.RolledBackIff`, `Workspace.GateLeavesInstalled`).

## Model

| member | source | states |
|---|---|---|
| UnifiedDiff.UnlinesInvertsSplitLines | internal/cli/diff.go:408-418 | joining the split lines gives the text back up to the newline of its last line |
| UnifiedDiff.SameLinesIff | internal/cli/diff.go:408-418 | two texts have the same lines exactly when they differ at most in that final newline |
| UnifiedDiff.Diff | internal/cli/diff.go:341-362 | no hunk exactly when the texts agree up to the final newline; otherwise hunks cut along windows over the edit script |
| LineDiff.LcsBounds | internal/cli/diff.go:424-440 | no pair of matched selections of the two line lists is longer than the table entry (exchange argument) |
| LineDiff.FillTable | internal/cli/diff.go:424-440 | the imperative table loop leaves the longest-common-subsequence length of the two suffix problems in every cell |
| LineDiff.Backtrack | internal/cli/diff.go:442-457 | the walk from the last cell to the first collects the script last edit first |
| LineDiff.ReverseInPlace | internal/cli/diff.go:459-462 | the in-place swap loop reverses the array |
| LineDiff.ComputeEdits | internal/cli/diff.go:420-477 | no edits exactly for equal inputs, otherwise the script |
| LineDiff.ScriptIsMinimal | internal/cli/diff.go:420-477 | equal and deleted lines spell the old side, equal and inserted lines the new side, and no script that does so has fewer changes |
| LineDiff.CommonSubsequenceBound | internal/cli/diff.go:424-457 | the number of equal lines is at least the length of any common subsequence |
| LineDiff.UnchangedIffSame | internal/cli/diff.go:464-476 | the script has no change exactly when the two sides are equal |
| LineDiff.DeletionsComeFirst | internal/cli/diff.go:442-457 | how ties are broken: inside a block of changes deletions stand before insertions |
| LineDiff.HasChanges | internal/cli/diff.go:464-474 | tells whether any edit is a change |
| Hunks.BuildHunks | internal/cli/diff.go:479-592 | the hunks are cut along disjoint increasing windows that show exactly the edits within the context of a change, with headers that count lines from one |
| Hunks.GrowHunk | internal/cli/diff.go:514-558 | one hunk takes changes and short runs of equal lines, and stops after the trailing context of a long run |
| Hunks.CountsAreLengths | internal/cli/diff.go:562-575 | the two counts of a header are the numbers of lines of its body on each side |
| Hunks.CountRun | internal/cli/diff.go:484-512 | skipping edits advances the line counters by the lines they consume on each side |
| Patch.HunksPatch | internal/cli/diff.go:479-592 | applying the hunks strictly, each at the line its header names, turns the old lines into the new ones |
| Patch.HunksPatchBack | internal/cli/diff.go:479-592 | the flipped hunks turn the new lines back into the old ones |
| Patch.HunksAreDetermined | internal/cli/diff.go:479-592 | showing what lies near a change with a gap between windows leaves no choice of hunks |
| TopoSort.TopoSortReleases | internal/cli/crossrel.go:219-290 | missing names, unknown dependencies and cycles are told apart exactly; otherwise the order is the topological one that is least by the first name, and in it the first character, to differ; with shared names every declared name comes out as often as it is declared, as its last entry, so every entry comes out exactly when different entries have different names |
| TopoSort.Scan | internal/cli/crossrel.go:259-276 | telling the dependents of one name keeps every in-degree equal to the number of dependencies not done, and the queue sorted and exact |
| TopoSort.Drain | internal/cli/crossrel.go:252-277 | emptying the queue ends with a list in which every name was the least ready one at its turn |
| TopoSort.Stuck | internal/cli/crossrel.go:278-288 | the reported names are those with a positive in-degree, sorted |
| TopoSort.OrderIsCorrect | internal/cli/crossrel.go:252-290 | a complete queue run means no cycle, a topological order, and the lexicographically least one |
| TopoSort.StuckIsCorrect | internal/cli/crossrel.go:278-288 | an incomplete run means a cycle, and the names reported are exactly those that reach one |
| TopoSort.DeclaredOrderIsNotKept | internal/cli/crossrel.go:217-219 | an input: of two independent entries declared as ba, ab the second comes out first, against the comment above the function |
| TopoSort.DeclaredOrderKeptIff | internal/cli/crossrel.go:217-219 | the declared order is kept exactly when each entry stands, at its turn, as the least by name of those whose dependencies stand before it |
| ReleaseGraph.LeastFirstIsTopological | internal/cli/crossrel.go:252-277 | taking the least ready name each time gives a topological order of the entries |
| ReleaseGraph.LeastFirstIsLeast | internal/cli/crossrel.go:252-277 | no topological order has a lexicographically smaller list of names |
| ReleaseGraph.LeftOverIffReachesCycle | internal/cli/crossrel.go:278-288 | when nothing is ready any more, what is left over is exactly what reaches a cycle through dependsOn |
| ReleaseGraph.CycleIffReached | internal/cli/crossrel.go:278-288 | there is a cycle exactly when some name reaches one |
| ReleaseGraph.NothingLostIff | internal/cli/crossrel.go:219-290 | a list with one last entry for each declared name misses nothing exactly when different entries have different names |
| StringOrder.FromTheFront | internal/cli/crossrel.go:249-276 | the order of names, by prefix or by the character at the first difference, is the one that reads them from the front |
| Storage.ReleaseStorage.Create | internal/release/memory_storage.go:43-66 | creates a revision that is not there yet and records what it was created with, or changes nothing |
| Storage.ReleaseStorage.Update | internal/release/memory_storage.go:80-99 | replaces a revision that is there, or changes nothing |
| Storage.ReleaseStorage.Delete | internal/release/memory_storage.go:158-170 | removes a revision, a missing one being no error, or changes nothing |
| Storage.ReleaseStorage.Get | internal/release/memory_storage.go:101-113 | finds exactly the stored record or reports it missing |
| Storage.ReleaseStorage.History | internal/release/memory_storage.go:142-156 | lists exactly the records of one release in ascending order |
| Storage.ReleaseStorage.Last | internal/release/memory_storage.go:131-140 | finds the highest revision, or reports that the release has none |
| Cluster.KubeClient.ApplyManifests | internal/kube/client.go:180-216 | complete success overlays the manifest in the order of its kinds, so every resource is held with its content; a failure leaves the first few resources in that order |
| Cluster.KubeClient.ApplyCrds | internal/kube/client.go:454-488 | CRDs are applied as they come; a failure, a CRD not served in time included, leaves the first few |
| Cluster.KindOrderKeepsContent | internal/kube/resources.go:92-101 | where documents of one object are of one kind, the stable order of kinds leaves the same objects as the written order |
| Cluster.KindsInOrder | internal/kube/resources.go:92-113 | resources are applied in the order of their kinds and deleted in the opposite one, those of one kind in the order they are written in |
| Cluster.LastOneWins | internal/kube/client.go:180-216 | of several documents for one object the last to be applied decides its content |
| Cluster.KubeClient.DeleteManifests | internal/kube/client.go:579-599 | complete success removes exactly the resources not marked keep; a failure leaves some resource and has removed exactly the ones before it in the opposite order of kinds |
| Cluster.KubeClient.DeleteResources | internal/kube/client.go:549-569 | as DeleteManifests, restricted to the listed keys |
| Cluster.OverlayMeaning | internal/kube/client.go:180-216 | applying a manifest overlays what it alone asks for, a later document winning |
| History.UpdateWithRetry | internal/action/upgrade.go:568-580 | the record is written within three attempts, or the store is unchanged after exactly three |
| History.MarkFailed | internal/action/install.go:532-541 | the failed status is written or the store is unchanged |
| History.SupersedeOtherDeployed | internal/action/upgrade.go:582-601 | every other deployed revision is demoted when all writes work, and only deployed ones are touched otherwise |
| History.PruneReleaseHistory | internal/action/upgrade.go:533-566 | exactly the prunable revisions go when all deletions work, and only prunable ones otherwise |
| History.Settle | internal/action/upgrade.go:519-530 | after the final status write the new revision is the newest and the only deployed one, and pruning keeps exactly the newest historyMax revisions |
| Records.DemotionLeavesOne | internal/action/upgrade.go:582-601 | however many revisions were deployed before, demotion leaves one, marks the others superseded and changes nothing else |
| Records.PruningKeepsNewest | internal/action/upgrade.go:533-566 | with the newest revision deployed, pruning keeps exactly the min(n, max) newest revisions |
| Records.NewerByPosition | internal/action/upgrade.go:555-561 | a position in the ascending history tells how many revisions are newer |
| Steps.ComputeOrphanedManifest | internal/action/upgrade.go:747-787 | the resources only the failed manifest has, by key as written |
| Steps.OrphanIds | internal/action/upgrade.go:747-787 | orphans belong to the failed manifest, and every resource it alone declares and that is not marked keep is deletable among them |
| Steps.RunSteps | internal/action/upgrade.go:343-513 | the walk passes exactly the steps the options and the package ask for, in order, up to the first failure, and touches only what the two manifests address; finishing holds the manifest; a stop leaves things untouched, the first few CRDs, all CRDs and a part of the forced deletion, or, after the apply, the whole manifest |
| Steps.ApplyAndWait | internal/action/upgrade.go:406-513 | apply, waits and the last hook in order, each only where asked for; only a failing apply leaves less than the whole manifest |
| Steps.ForceDelete | internal/action/upgrade.go:386-405 | force deletion touches only what the previous manifest lets go; a success deletes either all of that or exactly the resources that need it |
| Steps.SnapshotResources | internal/kube/client.go:516-545 | the snapshot lists the keys of existing resources but for those no lookup of which was answered |
| Steps.ExcludeCrds | internal/action/upgrade.go:716-745 | leaves exactly the resources that are no CRDs |
| Install.FailInstall | internal/action/install.go:553-569 | marks the revision failed and, when asked and clean, deletes everything deletable in the manifest |
| Install.Deploy | internal/action/install.go:286-342 | a clean failure with cleanup asked for deletes everything deletable in the manifest, unless the step is the first hook or the CRDs; those, and any failure without cleanup, leave the cluster as the step left it |
| Install.Conclude | internal/action/install.go:344-359 | the final status write, then pruning |
| Install.Install | internal/action/install.go:228-372 | creates revision 1 or refuses, never alters another revision, on success holds the manifest and is the only deployed revision if none was deployed before; a failing step is cleaned up after as its name and the options say; with complete pruning the new revision is still stored exactly when nothing was deployed before or fewer revisions are stored than are to be kept |
| Install.InstallLeavesOneDeployed | internal/action/install.go:228-372 | an install demotes nobody: the new revision is the only deployed one exactly when none was deployed before |
| Install.FirstSurvivesIff | internal/action/install.go:357-359 | for every store: pruning after an install spares revision 1 exactly when nothing was deployed before or fewer revisions are stored than are to be kept |
| Install.InstallMayPruneItself | internal/action/install.go:357-359 | an input: with revision 2 deployed and revision 1 pruned, an install that keeps one revision prunes the revision it has just created |
| Upgrade.AtomicRollbackUpgrade | internal/action/upgrade.go:650-682 | a clean rollback leaves the previous content in place, nothing deletable that only the failed revision declared, and the two statuses repaired, whatever subset had been applied |
| Upgrade.CleanupPartialApply | internal/action/upgrade.go:408-429 | cleanup after a partial apply adds nothing; a clean one removes exactly the deletable resources the snapshot does not list as existing before, or without a snapshot those only the new manifest declares |
| Upgrade.CleanupSparesIff | internal/action/upgrade.go:408-429 | wherever the apply failed and whatever the lookups answered, a clean cleanup leaves everything that was there before exactly when of every deletable resource among it some lookup was answered |
| Upgrade.FullSnapshotSpares | internal/action/upgrade.go:408-429 | it does so whenever every lookup of the snapshot was answered |
| Upgrade.UnansweredLosesObject | internal/kube/client.go:516-545 | an input: wherever the apply fails, cleanup deletes an existing service whose one lookup failed and leaves it when the lookup was answered |
| Upgrade.CleanupUnready | internal/action/upgrade.go:469-488 | a clean cleanup after a readiness timeout removes what is deletable and declared by the new manifest only and leaves every other previous resource with its previous content; any cleanup touches nothing outside the two |
| Upgrade.FailUpgrade | internal/action/upgrade.go:349-357 | marks, cleans up and rolls back in that order; a clean atomic ending is rolled back, any other touches at most the status of the new revision and leaves what the cleanup of that step leaves |
| Upgrade.Deploy | internal/action/upgrade.go:343-513 | of an atomic upgrade every clean failure is rolled back but that of the CRD and the force-delete step; after those, and without atomic, at most the new revision is marked failed, and without cleanup the cluster stays as the step left it; the cleanup after a failed apply and after a readiness timeout leaves what it is for; over the run, a clean cleanup spares what the snapshot saw exactly when the lookups found every deletable resource of it |
| Stops.CrdStopIff | internal/action/upgrade.go:361-373 | every state a failing CRD step can leave is that of a clean rollback exactly when the previous revision was the deployed one, its manifest held and nothing only the new one declares was there before, and each CRD is harmless: it repeats what the previous manifest asks for, or is neither in it nor deletable in the new one |
| Stops.ForceStopIff | internal/action/upgrade.go:386-405 | every state a failing forced deletion can leave is that of a clean rollback exactly when the previous revision was the deployed one, all was as before once the CRDs were applied, and the previous manifest has at most one deletable resource |
| Stops.ForceFailureIsNotUndone | internal/action/upgrade.go:386-405 | an input: of two services a forced deletion deletes one and fails at the other, and the deployed revision lacks a service |
| Upgrade.PruneRemovedResources | internal/action/upgrade.go:692-714 | removes exactly what the new manifest dropped, CRDs and kept resources excepted |
| Upgrade.RemovalSparesManifest | internal/action/upgrade.go:692-714 | the new manifest survives that removal exactly when no dropped resource is the same cluster object as one of its own |
| Upgrade.RespelledResourceCollides | internal/action/upgrade.go:684-687 | spelling out the namespace a resource already lived in makes the upgrade delete what it has just applied |
| Upgrade.Finish | internal/action/upgrade.go:515-530 | removal of dropped resources followed by the settling of the new revision |
| Upgrade.Upgrade | internal/action/upgrade.go:65-531 | from any history a finished upgrade ends with one deployed revision, the newest; a clean failure of an atomic one is rolled back unless the step is the CRD or the force-delete step, and nothing else is; no stored revision is altered but in status; an upgrade that installs keeps everything an install promises |
| Upgrade.RollbackRestoresCluster | internal/action/upgrade.go:650-682 | if the cluster held the previous manifest and nothing of what the failed one adds, a clean rollback leaves it as if the upgrade had never started |
| Upgrade.RollbackLeavesOneDeployed | internal/action/upgrade.go:650-682 | the rollback marks the previous revision deployed whatever it was, so one deployed revision is left exactly when no third one was deployed |
| Rollback.RunRollback | internal/action/rollback.go:120-177 | the steps of a rollback up to the first that fails; finishing overlays the target manifest on what the forced deletion, if asked for, has left; each stop leaves what that step leaves, an unclean apply with cleanup aside |
| Rollback.Rollback | internal/action/rollback.go:31-191 | creates the next revision with everything the target recorded at its creation; a finished one is the newest and only deployed revision |
| Uninstall.RunUninstall | internal/action/uninstall.go:70-115 | deletes exactly the removable resources; a stop has deleted nothing, all of them, or those before the one that failed |
| Uninstall.DeleteHistory | internal/action/uninstall.go:117-127 | deletes every revision, going on past failures |
| Uninstall.Uninstall | internal/action/uninstall.go:32-137 | success removes exactly the removable objects and either, when all deletions work, the whole history or, when it is kept, only the newest revision's status, then superseded |
| Lifecycle.Step | internal/action/upgrade.go:65-531 | every operation keeps the recorded content of all stored revisions and touches one release only |
| Lifecycle.Run | internal/action/upgrade.go:582-601 | over any run of operations with failures anywhere, every stored revision is what it recorded at creation |
| Lifecycle.OnlyStatusEverChanges | internal/action/upgrade.go:582-601 | a revision that stays stored between two points of a run differs in its status at most |
| Lifecycle.RollbackRestoresWhatWasRecorded | internal/action/rollback.go:63-105 | a rollback to N repeats what N recorded, however long ago and whatever happened in between |
| Lifecycle.OtherReleasesAreUntouched | internal/action/upgrade.go:582-601 | operations on other releases leave every record of a release alone |
| Rename.CopyAll | internal/cli/rename_prune.go:49-62 | copies every revision with only the name changed, or takes the copies away again |
| Rename.DeleteCopies | internal/cli/rename_prune.go:54-56 | attempts every deletion; when all work the store is as before |
| Rename.DeleteOriginals | internal/cli/rename_prune.go:80-86 | after every deletion the release is still complete under the new name |
| Rename.Rename | internal/cli/rename_prune.go:25-89 | after every single write, whichever call fails, the release is complete under the old name or under the new one |
| Prune.PruneRelease | internal/cli/rename_prune.go:132-162 | counting kept revisions from the newest down drops exactly what the position arithmetic of an operation's own pruning drops; a dry run only counts |
| Prune.PruneCommand | internal/cli/rename_prune.go:107-166 | prunes exactly the asked-for releases, each as if alone, and counts right; a dry run changes nothing |
| FieldDiff.ComputeFieldChanges | internal/diff/smart.go:366-409 | the recursion with its prefix argument lists exactly the changes of the two values, under that prefix |
| FieldDiff.ComputeMapDiff | internal/diff/smart.go:411-442 | goes through the union of the keys in sorted order |
| FieldDiff.SilentIffEqual | internal/diff/smart.go:366-409 | no change exactly when the values are equal |
| FieldPatch.PatchArrives | internal/diff/smart.go:366-442 | every change finds the value it records and the last one leaves the new value, but for keys only the new side has as null |
| FieldPatch.PatchIffNullsKept | internal/diff/smart.go:366-442 | the changes are a patch exactly when the new value introduces no null under a key, in particular on values without nulls |
| FieldPatch.PatchBackIffNullsKept | internal/diff/smart.go:366-442 | with the sides swapped the same changes lead back to the old value, under the same condition |
| FieldPatch.AddedNullIsLost | internal/diff/smart.go:433-434 | adding a key with a null value is reported but cannot be told from nothing |
| FieldPatch.PathsApart | internal/diff/smart.go:366-442 | no reported path is inside another |
| SmartDiff.FilterNoise | internal/diff/smart.go:192-240 | the deletions as coded leave what each filter is documented to leave |
| SmartDiff.StripDefaults | internal/diff/smart.go:245-282 | drops server defaults per kind, user-settable fields only at their default value |
| SmartDiff.StripImagePullPolicy | internal/diff/smart.go:284-342 | finds the pod spec of a workload, a cron job or a pod and filters its containers only |
| SmartDiff.RedactData | internal/diff/smart.go:295-309 | every entry of the map is replaced by the marker |
| SmartDiff.FilteredTwice | internal/diff/smart.go:192-342 | a filtered resource has no noise left to filter |
| SmartDiff.OtherFieldsShow | internal/diff/smart.go:192-240 | fields no filter knows about are always compared |
| SmartDiff.SecretEntriesCompare | internal/diff/smart.go:295-309 | redaction hides what a secret holds, never that an entry came or went |
| NoisePaths.ShownExactly | internal/diff/smart.go:192-342 | at every path a filtered resource shows what the resource holds there, except at the paths the filters are documented to hide and at the entries of a secret, which all read the same |
| NoisePaths.MetaAt | internal/diff/smart.go:199-230 | of metadata exactly the keys that are not shown are hidden, and metadata itself when nothing else is in it |
| NoisePaths.DefaultsAt | internal/diff/smart.go:245-282 | by kind: some fields of spec are hidden always, others only at their default value, and of every port the node port and the default protocol |
| NoisePaths.PoliciesAt | internal/diff/smart.go:284-342 | three fields of every container are hidden, wherever the pod spec of the resource is |
| SmartDiff.Compute | internal/diff/smart.go:129-173 | goes through the union of the resource keys in sorted order |
| SmartDiff.ReportedExactly | internal/diff/smart.go:129-173 | additions, removals and modifications are reported for exactly the keys they concern, with the filtered bodies or their differences |
| SmartDiff.ComputeSilentIff | internal/diff/smart.go:129-173 | nothing is reported exactly when the key sets and the filtered bodies agree |
| SmartDiff.FilteringIsNoChange | internal/diff/smart.go:129-173 | filtering a manifest beforehand is never a change |
| Stash.StashExpressions | internal/engine/engine.go:250-294 | the scan with its quote and brace flags cuts the content into the expressions and characters of its parse |
| Stash.ScanToClose | internal/engine/engine.go:257-278 | finds the brace that closes an expression, or that none does |
| Stash.ScalarIsQuotedExpression | internal/engine/engine.go:442-468 | tells an expression between two equal quotes before which there are only blanks back to what starts a scalar |
| Stash.RestoreFills | internal/engine/engine.go:321-338 | every token is put back whatever surrounds it, as long as no run of plain characters spells the token prefix |
| Stash.RestoreFillsIff | internal/engine/engine.go:321-338 | for any text around them the tokens are put back and the text is kept exactly when no token the text spells, going from the left, has a known number or runs on into a real token |
| Stash.StashRoundTrip | internal/engine/engine.go:250-338 | restoring after stashing gives the content with the conversion to string inserted in exactly the quoted expressions |
| Stash.StashRoundTripIff | internal/engine/engine.go:250-338 | for any content at all, the round trip works exactly when the tokens its plain text spells are harmless in that sense |
| Stash.StashedScalarRestored | internal/engine/engine.go:296-338 | any run of pieces of the stashed text is restored on its own |
| Stash.RoundTripIsIdentityIff | internal/engine/engine.go:250-338 | the content itself comes back exactly when no expression fills a quoted scalar |
| Stash.TextMayCaptureToken | internal/engine/engine.go:250-338 | an input: in the content __KERAMOS_EXPR_1${x} the text takes the start of the token, and the expression is lost |
| Decimal.ReadsBack | internal/engine/engine.go:283-335 | the number written into a token is the number read back from it |
| Include.ResolveIncludesAtDepth | internal/engine/include.go:23-36 | restores the visited set on return and agrees with the expansion without it |
| Include.ResolveMap | internal/engine/include.go:38-99 | an include cycle is reported only where no expansion exists; a refusal of any kind means there is none within the depth left |
| Include.ResolveIncludes | internal/engine/include.go:17-111 | terminates, and succeeds exactly when everything reachable is there and no chain of includes is longer than 64, with the expansion as result |
| Include.ExpandsIffChainsWithin | internal/engine/include.go:23-99 | the bounded expansion is defined exactly when all that is reachable is there and no chain is longer than the bound |
| Include.ExpandsIffNoCycle | internal/engine/include.go:60-72 | with everything there, some expansion exists exactly when no chain of includes comes back to a name |
| Include.ExpandMonotone | internal/engine/include.go:23-27 | a larger bound never changes an expansion |
| Include.LoopNeverExpands | internal/engine/include.go:60-72 | a partial that asks for itself, however indirectly, has no expansion of any length |
| Include.OverridesWinUnexpanded | internal/engine/include.go:52-98 | an include becomes the expansion of the partial it names; over a map the other keys of the including map win, copied as they stand, directives and all |
| Include.PartsAreExpanded | internal/engine/include.go:38-50 | everything else keeps its shape around the expansions of its parts |
| Pipeline.SplitPipeline | internal/engine/expression.go:360-388 | the scan with its depth and quote flags splits at bars in the neutral state only |
| Pipeline.JoinUndoesSplit | internal/engine/expression.go:360-388 | the segments joined by bars are the expression |
| Pipeline.SplitUndoesJoin | internal/engine/expression.go:360-388 | segments that leave quotes and parentheses as they found them are found again after joining |
| Pipeline.SplitGivesSegments | internal/engine/expression.go:360-388 | what is split off is such a segment and splits no further |
| PipelineLaws.SplitsBetweenSegments | internal/engine/expression.go:360-388 | segments made of letters, quoted texts and matching parentheses, with no other bar, are found again: a bar in quotes, in parentheses or behind a backslash splits nothing |
| Expressions.ClosesIff | internal/engine/expression.go:245-270 | an expression ends at the brace before which its text is made of letters, quoted texts and matching braces, and nowhere when there is none |
| Substitute.SubstituteMixed | internal/engine/expression.go:203-238 | the mixed-text scan: escapes collapse, closed expressions are printed, an omitted value prints nothing |
| Substitute.QuietIdentity | internal/engine/expression.go:138-175 | where nothing opens an expression substitution is the identity in every scope |
| Substitute.SubstitutedIsSettled | internal/engine/expression.go:138-239 | with closed expressions and no escapes, when the evaluations that occur in this scope give no dollar sign and no nested drop, one pass leaves expressions only in keys that evaluate to the drop marker |
| Substitute.SubstitutedIsQuiet | internal/engine/expression.go:138-239 | where moreover no key evaluates to the drop marker, nothing is left to evaluate in any scope |
| Substitute.SecondPassChangesNothing | internal/engine/expression.go:138-239 | under those conditions substitution is idempotent, whatever keys evaluate to |
| Substitute.SecondPassElsewhereIff | internal/engine/expression.go:138-239 | a pass in another scope changes nothing exactly when every key that stayed as written because it evaluated to the drop marker does so there, too |
| Substitute.DroppedKeyComesBack | internal/engine/expression.go:178-190 | an input: a key that evaluates to the drop marker stays as written and is evaluated after all in another scope |
| SubstituteLaws.ExpressionKeepsItsValue | internal/engine/expression.go:192-201 | a text that is one expression and blanks is what the expression evaluates to, of whatever kind |
| SubstituteLaws.TextOfPieces | internal/engine/expression.go:203-238 | any other text around closed expressions and escapes is the text of its pieces in order, each evaluated in this scope |
| SubstituteLaws.UnclosedIsText | internal/engine/expression.go:216-236 | text in which nothing that opens ever closes stays as it is |
| SubstituteLaws.LastBraceCloses | internal/engine/expression.go:192-201 | an input: a text that starts with an expression and ends with a brace of its own is evaluated as one expression |
| SubstituteLaws.ListsSubstituteInARow | internal/engine/expression.go:159-171 | two lists one after the other are substituted one after the other |
| SubstituteLaws.ItemSubstituted | internal/engine/expression.go:159-171 | an item is substituted by itself and leaves no place when it is dropped |
| SubstituteLaws.EntriesSubstituted | internal/engine/expression.go:142-190 | every entry that is not dropped stands under its substituted key with its substituted value, where no two keys become the same |
| Control.DroppedFieldVanishes | internal/engine/control.go:64-91 | a field that drops itself leaves the map as if it had never been written |
| Control.LoopOfOneIsBinding | internal/engine/control.go:354-383 | a loop over a list of one equals a binding of its one item |
| Control.ProcessedFits | internal/engine/control.go:42-422 | for a template whose strings and keys that reach a pass are closed, free of escapes and tame there, what processing returns is fit for the pass that follows it, through conditions, loops, switches, bindings and merges |
| Control.InnerPassIsFinal | internal/engine/let.go:30-53 | the pass inside a loop or a binding is final: another pass over its result, in whatever scope and with whatever evaluator, changes nothing |
| Control.LookupIsFairIff | internal/engine/control.go:354-422 | an evaluator that looks values up meets that condition exactly where the value found is free of dollar signs |
| ControlLaws.BranchTaken | internal/engine/control.go:275-297 | a condition that comes to one of the fourteen falsy values takes the else branch, every other one the then branch |
| ControlLaws.OtherBranchIsIrrelevant | internal/engine/control.go:275-297 | the branch not taken may be anything, fail, or be missing |
| ControlLaws.BlockKept | internal/engine/control.go:299-319 | without a then branch the condition keeps or drops the map it stands in |
| ControlLaws.ConditionFails | internal/engine/control.go:275-279 | a condition that cannot be evaluated is an error |
| ControlLaws.CaseTaken | internal/engine/control.go:424-450 | a choice takes the case its value is written as, the default when there is none, and leaves nothing without one |
| ControlLaws.OtherCasesAreIrrelevant | internal/engine/control.go:424-450 | cases not taken do not matter, nor does the default where a case is taken |
| ControlLaws.LoopsInARow | internal/engine/control.go:354-383 | a loop over two lists in a row gives the two results in a row |
| ControlLaws.GreatestKeyComesLast | internal/engine/control.go:385-422 | a loop over a map goes by its keys, the greatest last |
| ControlLaws.LoopOfEntry | internal/engine/control.go:385-422 | of an entry the body sees the key, the value, and both under the name |
| ControlLaws.LoopOverExpression | internal/engine/control.go:321-352 | a loop over an expression is a loop over what it comes to; nothing at all leaves nothing, anything but a list or a map is an error |
| ControlLaws.BindingsInOrder | internal/engine/let.go:13-53 | bindings are evaluated in the order of their names, each seeing the ones before it under its name and with a dollar sign, and the body sees them all |
| ControlLaws.PlainMap | internal/engine/control.go:64-91 | a map without directives is processed entry by entry, dropped entries left out |
| ControlLaws.MergeOverrides | internal/engine/control.go:144-175 | what is merged is laid over what is written, a later map of a list over the ones before it |
| ControlLaws.MergedTextIsParsed | internal/engine/control.go:177-190 | a merge of text merges what the text is parsed to, blank text nothing |
| ControlLaws.LoneMergeOfMaps | internal/engine/control.go:93-131 | a merge with nothing beside it is the map it merges, or its maps laid one over the other |
| ControlLaws.LoneMergeOfLists | internal/engine/control.go:111-131 | lists merged with nothing beside them follow one another |
| ControlLaws.ListsInARow | internal/engine/control.go:237-264 | two lists in a row are processed to the two results in a row |
| ControlLaws.ItemAlone | internal/engine/control.go:237-264 | an item is processed by itself and leaves no place when it is dropped |
| ControlLaws.SplicedInPlace | internal/engine/control.go:216-246 | a merge that is an item of its own puts the items of its list in its place |
| ControlLaws.OnlyOwnKeysMatter | internal/engine/control.go:42-62 | the first directive of a map decides, and nothing but its own keys matters to it |
| Merging.EndingIsSettled | internal/engine/control.go:144-175 | once merging ends within some number of nested lists, a larger bound gives the same result, so the bound of the model shows only where it has not ended |
| Merging.EndlessIffChain | internal/engine/control.go:144-175 | merging is still under way after n nested lists exactly when there is a chain of n + 1, each come to in the one before past items that merge well |
| Merging.MergingEndsIff | internal/engine/control.go:144-175 | where merging comes to finitely many values it ends, well or with an error, exactly when it comes back to none; not having ended after as many nested lists as values it never does |
| Merging.LoopIsEndless | internal/engine/control.go:144-175 | whatever comes back never ends, finitely many values or not |
| Merging.SelfMergeIsEndless | internal/engine/control.go:144-175 | an input: merging a list that names itself goes on for ever |
| Render.CleanIffPlain | internal/engine/engine.go:388-417 | cleaning is the identity exactly on clean trees and does its work in one pass |
| Render.OutputIsPlain | internal/engine/engine.go:166-206 | whatever the template says, the output holds no directive key and no drop marker at any depth |
| Render.RenderIsIdentity | internal/engine/engine.go:166-206 | within the nesting limit a document without directives and expressions is rendered to itself, other dollar keys included |
| Render.RenderingAgain | internal/engine/engine.go:166-206 | rendering expression-free output again, under any values and partials, changes nothing |
| Render.OutputIsSilent | internal/engine/engine.go:166-206 | the output of a fair template holds no expression at any depth |
| Render.RenderingIsFinal | internal/engine/engine.go:166-206 | rendering the output of a fair template again, under any values and partials, changes nothing |
| Render.DepthIsExact | internal/engine/engine.go:419-440 | the depth check that stops one level below the limit refuses exactly the trees with a longer path |
| Render.TooDeepIsRefused | internal/engine/engine.go:166-180 | a document with a path of more than 200 steps is refused, whatever it says |
| Render.CleanedKeys | internal/engine/engine.go:388-417 | cleaning drops the twenty directive keys and dropped values, and no other entry |
| Validator.Checker.Validate | internal/action/schema.go:95-192 | problems are only added, and none is added exactly when the value conforms at the remaining depth |
| Validator.Checker.Probe | internal/action/schema.go:134-171 | alternatives are tried on a validator of their own; the problems collected so far stay as they are |
| Validator.Checker.ValidateCombinators | internal/action/schema.go:126-171 | adds a problem exactly when one of the four combinators fails |
| Validator.Checker.ValidateType | internal/action/schema.go:284-336 | adds a problem exactly when the value does not have the one named type, null and unknown names treated as coded |
| Validator.Checker.ValidateDeclared | internal/action/schema.go:173-221 | adds a problem exactly when a single type, every listed type, or the keywords for the kind of value refuse it |
| Validator.Checker.ValidateObject | internal/action/schema.go:338-422 | in whatever order keys are visited, adds a problem exactly when required keys, sizes, dependencies, patterns or properties are violated |
| Validator.Checker.ValidateArray | internal/action/schema.go:424-447 | adds a problem exactly when sizes, uniqueness or the items are violated |
| Validator.Checker.ValidateString | internal/action/schema.go:449-469 | adds a problem exactly when length in bytes, pattern or format is violated |
| Validator.Checker.ValidateNumeric | internal/action/schema.go:471-490 | adds a problem exactly when one of the numeric bounds, over exact numbers, is violated; what the bounds admit is SchemaKeywords.NumbersWithin and SchemaKeywords.MultiplesOf |
| Validator.EnumContains | internal/action/schema.go:593-600 | found exactly when some member is equal to the value |
| Validator.ValidateValues | internal/action/schema.go:51-57 | values are accepted exactly when they conform to the root schema within 32 levels; what conforming means, keyword by keyword, is SchemaKeywords.KeywordsAreIndependent and the rows below it |
| SchemaLaws.LargerBoundSameVerdict | internal/action/schema.go:95-192 | when the bound is never the reason for a refusal, any larger bound gives the same verdict, though not and oneOf are not monotone |
| SchemaLaws.SchemaAloneDecides | internal/action/schema.go:95-102 | when the schema, references followed, is nested no deeper than the bound, the bound plays no part in the verdict on any value |
| SchemaLaws.AllOfAlone | internal/action/schema.go:127-133 | allOf holds exactly when every alternative passes (JSON Schema Core 2020-12, section 10.2.1.1) |
| SchemaLaws.AnyOfAlone | internal/action/schema.go:134-149 | anyOf holds exactly when some alternative passes (section 10.2.1.2) |
| SchemaLaws.OneOfAlone | internal/action/schema.go:150-164 | oneOf holds exactly when a single alternative passes (section 10.2.1.3) |
| SchemaLaws.NotAlone | internal/action/schema.go:165-171 | not holds exactly when its schema fails (section 10.2.1.4) |
| SchemaLaws.NotAnyIsAllNot | internal/action/schema.go:126-171 | refusing anyOf is refusing every alternative |
| SchemaLaws.NestingIsBounded | internal/action/schema.go:95-102 | the bound counts every subschema entered, not references only: values nested as deep as the bound are refused |
| SchemaLaws.SingleTypeIff | internal/action/schema.go:284-336 | a single type means what the standard says exactly when its name is one of the seven and the value is not a null offered as object, array or string |
| SchemaLaws.ListedTypes | internal/action/schema.go:173-192 | a list of types admits exactly what one of them describes |
| SchemaLaws.SingleAndListAgreeIff | internal/action/schema.go:173-192 | a type by itself and the same type in a list agree exactly under that condition |
| SchemaLaws.EqualityIff | internal/action/schema.go:602-612 | members of an enum are compared by value, exactly unless an integer meets a real below the top |
| SchemaLaws.NestedNumbersDiffer | internal/action/schema.go:602-612 | an input: an integer equals a number of the schema at the top, not inside a list or map |
| SchemaKeywords.KeywordsAreIndependent | internal/action/schema.go:95-221 | a schema without a reference asks for exactly what each of its keywords asks for, properties, pattern properties and additional properties taken as one |
| SchemaKeywords.UnknownTypeHidesKeywords | internal/action/schema.go:284-336 | next to an unknown type name only constants, enumerations and combinators count |
| SchemaKeywords.NumbersWithin | internal/action/schema.go:471-483 | the numbers between two bounds are the closed interval, between two exclusive ones the open interval |
| SchemaKeywords.MultiplesOf | internal/action/schema.go:484-489 | the multiples of a number are admitted, give or take a billionth of it |
| SchemaKeywords.LengthsWithin | internal/action/schema.go:449-455 | the strings between two lengths are those of that many bytes, the bounds cut towards zero |
| SchemaKeywords.BytesOf | internal/action/schema.go:449-455 | the bytes of a text are those of its characters, one to four each |
| SchemaKeywords.ItemsWithin | internal/action/schema.go:424-430 | the lists between two sizes are those of that size |
| SchemaKeywords.FieldsWithin | internal/action/schema.go:348-353 | the maps between two sizes are those of that size |
| SchemaKeywords.UniqueItems | internal/action/schema.go:431-441 | unique items means that no two are alike, where it is asked for |
| SchemaKeywords.RepeatingBreaksUniqueness | internal/action/schema.go:431-441 | repeating an item anywhere breaks it |
| SchemaKeywords.RequiredKeys | internal/action/schema.go:338-347 | required means that every key listed is there |
| SchemaKeywords.RequiredIsMonotone | internal/action/schema.go:338-347 | adding a key never breaks it, and taking a required one away always does |
| SchemaKeywords.DependentKeys | internal/action/schema.go:354-371 | a key that is there asks for the keys that depend on it |
| SchemaKeywords.DeclaredProperties | internal/action/schema.go:373-421 | the value of a declared key conforms to its schema |
| SchemaKeywords.MatchedProperties | internal/action/schema.go:373-421 | the value of a key conforms to the schemas of all patterns that match it, and all patterns compile |
| SchemaKeywords.AdditionalProperties | internal/action/schema.go:373-421 | the third keyword speaks about the keys the other two do not describe: none may be there, all must conform to it, or it says nothing |
| SchemaKeywords.OtherKindsPass | internal/action/schema.go:196-221 | a keyword for another kind of value asks for nothing |
| SchemaKeywords.TextKeywords | internal/action/schema.go:456-468 | a pattern must compile and match, a format must be met |
| SchemaKeywords.ConstantsAlone | internal/action/schema.go:115-124 | a constant admits what is equal to it, an enumeration what is equal to one of its members |
| SchemaKeywords.TypesMean | internal/action/schema.go:549-573 | the seven types in the words of the standard; a whole number may be written as a real |
| SchemaRefs.ReferenceMeansTarget | internal/action/schema.go:104-112 | a reference stands for the schema its keys lead to, whatever characters they hold and whatever else is said beside it (RFC 6901, section 3) |
| SchemaRefs.UnescapeUndoesEscaped | internal/action/schema.go:259-281 | reading an escaped key of a pointer gives the key |
| SchemaRefs.ForeignReferenceFails | internal/action/schema.go:259-265 | a reference to anywhere else admits nothing |
| Scan.FlattenValues | internal/action/scan.go:275-293 | the flat form holds exactly the leaves, each under its path |
| Scan.CountLeaves | internal/action/scan.go:225-246 | every leaf is counted once for each package that has it |
| Scan.CommonLeavesAgree | internal/action/scan.go:248-264 | two leaves that most packages share never get in each other's way, since two strict majorities share a package |
| Scan.FindCommonValues | internal/action/scan.go:225-264 | in whatever order the counted leaves are visited, the common tree has exactly those above the threshold |
| Scan.SetNestedLeaves | internal/action/scan.go:319-339 | writing a value at a path sets that leaf, removes leaves on the same line and keeps all others |
| Scan.RemoveCommonValues | internal/action/scan.go:472-503 | keeps exactly the entries the base layer does not already give |
| Scan.MergedLeaf | internal/action/scan.go:472-503 | merging the reduced values over the base gives, path by path, the package's leaf, nothing where it has something else, or the base's leaf where it is silent |
| Scan.FactoringKeepsLeaves | internal/action/scan.go:472-503 | no leaf of a package is lost or changed |
| Scan.FactoringIsExactIff | internal/action/scan.go:472-503 | the leaves are the same ones exactly when the package settles every path the base has a leaf at |
| Workspace.RunKeepsInvariant | internal/cli/workspace.go:287-355 | in every state of every interleaving slots, results, failure count and endings fit together; each member is recorded at most once |
| Workspace.LevelBarrier | internal/cli/workspace.go:304-333 | a member starts only when fewer members are running or only recorded than may run in parallel, at least one, and after every member of earlier levels is recorded, a success unless the run continues on errors |
| Workspace.NeverStuck | internal/cli/workspace.go:304-370 | no interleaving gets stuck |
| Workspace.RunsAreBounded | internal/cli/workspace.go:304-370 | no interleaving takes more than four steps a member, one a level and one at the end |
| Workspace.AtomicUninstallsSuccesses | internal/cli/workspace.go:347-354 | an atomic run that fails uninstalls exactly the members whose success was recorded; every other ending uninstalls nothing |
| Workspace.UninstalledInReverse | internal/cli/workspace.go:444-469 | of two of them the one recorded later goes first |
| Workspace.RolledBackIff | internal/cli/workspace.go:335-354 | an atomic run that does not succeed leaves no recorded success installed exactly unless, with the gate on, it was stopped by an unhealthy level and some member had succeeded |
| Workspace.GateLeavesInstalled | internal/cli/workspace.go:335-345 | an input: a run of one member that works but never becomes ready |
| Workspace.SuccessMeansAll | internal/cli/workspace.go:357-370 | success is reported exactly when every recorded result is one, and then every member has a result |
| Workspace.RollbackWorkspace | internal/cli/workspace.go:444-469 | uninstalls the recorded successes, last recorded first |
| Levels.LevelsOf | internal/workspace/workspace.go:143-212 | distinct members split into levels by depth in name order; otherwise the error names exactly the members that reach a cycle; with shared names every declared name is there as often as it is declared, as its last member, so nobody is lost exactly when different members have different names |
| Levels.Release | internal/workspace/workspace.go:184-197 | telling the dependents of one member keeps every in-degree and the next level exact |
| Levels.ReleaseLevel | internal/workspace/workspace.go:183-198 | after a whole level the next list is exactly what has become ready |
| Orchestration.DependenciesComeFirst | internal/cli/workspace.go:275-333 | in every interleaving of an install or upgrade a member starts after the results of all it depends on are recorded |
| Orchestration.DependentsGoFirst | internal/cli/workspace.go:279-333 | an uninstall takes a member off after all that depend on it |
| Ranges.UntilStep | internal/engine/functions_sprig_extra.go:107-170 | a returned list is exactly the progression before the bound with no wrapped item; operands within 2^52 give at most 65536 items and are refused only beyond that |
| Ranges.Until | internal/engine/functions_sprig_extra.go:84-105 | counts from zero towards n, refused exactly beyond 65536 in magnitude |
| Ranges.WrapShows | internal/engine/functions_sprig_extra.go:150-168 | a 64-bit sum has wrapped exactly when it compares the wrong way round |
| Ranges.SmallLength | internal/engine/functions_sprig_extra.go:125-144 | for small operands the length computed in 64 bits is the real one |
| Ranges.Seq | internal/engine/functions_sprig_final.go:101-157 | a returned list is exactly the progression up to and including the end, with no wrapped item |
| Ranges.UpToIsUnique | internal/engine/functions_sprig_extra.go:150-168 | the progression before a bound is one list only |

## Left out

- UnifiedDiff.Diff: returns hunks as values; their rendering as text with header lines, and the two label lines, is not modelled.
- Upgrade.Upgrade: rendering, value resolution and layers are one parameter, the rendered payload, or its failure; hook bodies are steps that succeed or fail; recreate-pods, timeouts, audit and timestamps are not modelled.
- Install.Install: package requirements and namespace creation before the first write are not modelled.
- Rollback.Rollback: without force it removes nothing the target lacks, as coded; parsing of hook templates is a step that may fail.
- Rename.Rename: ownership labels on cluster objects are a step that may fail; their content is not modelled.
- Storage.ReleaseStorage.Create: the size limit is one of the reasons a call may fail; the Secret and ConfigMap back ends are not modelled.
- Cluster.KubeClient.ApplyManifests: the ranks of kinds are data of the documents; ownership checks and server-side merging of fields are not modelled, so an apply sets the whole content.
- FieldDiff.ComputeFieldChanges: paths are lists of key and index segments; the dotted text, ambiguous for keys with dots, is not modelled.
- SmartDiff.FilterNoise: the deletions happen on a private deep copy in the source and on a value here, so update in place is not modelled; nor is the rendering of changes as YAML.
- Stash.StashExpressions: parsing of the stashed YAML is not modelled; restoring is stated for any run of pieces instead.
- Substitute.SecondPassElsewhereIff: the keys of the first result must evaluate to values without dollar signs in the other scope as well.
- Substitute.SubstituteMixed: evaluation of an expression is an abstract function of its text and scope, so functions that read clocks or random numbers are not modelled.
- Control.ProcessedFits: what text blocks and parsed merges bring in must meet the same conditions, since both are parameters; unclosed expressions and escapes are outside the claim.
- Control.ApplyMerge: recursion through lists of merges is cut off at a depth of 1000, which shows exactly where the source recurses deeper than that or for ever (see Merging.EndlessIffChain); text blocks and the parsing of merged text are parameters.
- Include.ResolveMap: which of several errors is reported depends on map order and is not modelled.
- Validator.Checker.Validate: compiling and matching patterns, including the length cap on patterns, and formats are parameters; numbers are exact reals, so rounding is not modelled, and message texts are keywords.
- Scan.FindCommonValues: paths are lists of keys, so keys with the separators of the flat form are not modelled, and values are compared directly instead of by their printed form; templates and file writing are not modelled.
- Scan.RemoveCommonValues: values are compared directly instead of by their printed form, so a nested list of 1 and a list of 1.0, printed alike, count as different here.
- Scan.SetNestedLeaves: the source writes into nested maps in place, the model builds new ones.
- Levels.LevelsOf: depth, cycles and success are stated for distinct member names; loading a workspace does not check that they are distinct, and with shared names the counts of both are mixed.
- TopoSort.TopoSortReleases: order, cycles and success are stated for distinct names; with shared names the counts of both are mixed.
- Workspace.RunKeepsInvariant: what a member does is a result that is a success or a failure; the order of lines printed is not modelled.
- Ranges.UntilStep: the floating-point estimate is a parameter that may refuse on its own.
- Ranges.Seq: the floating-point estimate of the size is a parameter, so which arguments it refuses is not stated.
- Validator.Checker.ValidateNumeric: numbers are exact reals, so rounding of the multiple check is not modelled.
- Commands, printing, file handling, git, HTTP, OCI and signing.
- Functions of the template language other than ranges, and the lookup of paths in values.
