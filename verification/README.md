# Moguet's artifact and update logic

Moguet is an AUR helper. This project models the chain from "makepkg says it will
produce these files" to "these bytes are installed, with this reason, and the
workspace is gone", together with the pieces around it, and proves properties of
whole runs of it.

| file | what it models |
|---|---|
| `FileSystem.dfy` | inodes, names, mounts and the calls that take names away |
| `WorkspaceCleanup.dfy` | the two-phase removal of a workspace: plan, recheck, delete |
| `ExpectedArtifacts.dfy`, `PostBuildArtifacts.dfy` | the announced artifacts and the inspection after the build, for one artifact and for a set |
| `InstallContent.dfy`, `CallPlans.dfy`, `ArtifactSet.dfy` | the byte loops, what whole operations ask of the calls below them, the sealed copies and the owner of all descriptors |
| `ArtifactRuns.dfy` | histories of a set under any operations and foreign rewrites |
| `InstallRun.dfy` | one install from the inspected directory to the installer's bytes and the removal |
| `ArtifactSelection.dfy`, `IdentityCorrelation.dfy` | selection of the produced artifacts and its re-derivation |
| `VersionGuard.dfy` | version grammar, the guard of automatic updates, install reasons |
| `DiagnosticText.dfy` | the bounded form of untrusted bytes |
| `UpdatePreflight.dfy` | the snapshot check over targets, issues and blockers |
| `ConstraintMetadata.dfy` | projection of AUR metadata and refresh of a chosen provider |
| `InstallManifest.dfy`, `ManifestUninstall.dfy` | the manifest uninstaller |
| `CliAuthority.dfy`, `CompletionLoader.dfy`, `CliRoundTrip.dfy`, `CliDocument.dfy` | the exporter of the CLI grammar, its loader, and what one makes of the other, for a record and for a document |
| `FileSystemView.dfy`, `CleanupConditions.dfy`, `PostBuildConditions.dfy`, `InstallConditions.dfy`, `InstallCalls.dfy`, `PackagelistConditions.dfy`, `ManifestConditions.dfy`, `UninstallConditions.dfy`, `SelectionDiagnosis.dfy`, `WireWords.dfy`, `LoaderConditions.dfy`, `PreflightConditions.dfy`, `GuardConditions.dfy`, `ProviderConditions.dfy` | the results once more, in the fields of what goes in and comes out |
| `TextLists.dfy`, `Paths.dfy`, `PackageIdentifier.dfy`, `Wrappers.dfy` | shared text, path and name helpers |

`dafny verify dfyconfig.toml` checks everything.

Each main operation is told twice. Its own file follows the program, branch by branch, and
proves what the program is for. A file of conditions then says in fields, character codes,
mode digits and concrete words when it does what. These conditions do not rest on the
program's own tests, so a wrong test would contradict them.

## How the program is rendered

- The file system is a map from inodes to nodes with a map of names for directories. An
  open directory is the inode it pins. A parameter such as `later` or `afterPreflight`
  is the file system at a later moment, so that anything may have happened in between.
- Outcomes of reads and writes come from a script: a signal, a failure, or a bound on the
  count. "No call of its plan fails" means that `CallPlans.Pass` of the operation's list of
  calls, copies and comparisons gets through that script. Validity checks of names and
  identities in `ArtifactSet` come from a list of verdicts; `InstallRun` takes each verdict
  from the directory model.
- Directories form trees, as kernels see to it; `CleanupConditions.TreesMean` says what of
  that the removal needs.
- Exceptions are values: `None`, `Refused` or a named failure. A guard that is proved
  unreachable is an `assert false` where the program would throw.
- The package comparison of libalpm, the parsers of single dependency specifications and
  the reviewed bootstrap trial are parameters or plain data.

## Where the expectation and the code differ

- Cleanup can stop midway without any interference: the scan and the recheck do not look
  at whether a directory inside is writable or a name is covered by a mount. `Cleanup`
  gives the exact condition, `ReadOnlyDirectoryStopsCleanup` an example.
- The recheck compares names, inodes and types, not modes, yet it can tell two equal trees
  apart: it opens every planned directory again. `RecheckIsExact` includes that,
  `UnreadableDirectoryRefusesCleanup` is an example.
- The comparison with the sealed copy asks every read for its full count, so a short read
  refuses equal bytes; the copy loop accepts short reads. `RequireSameInstallContent` has
  the exact condition.
- A manifest may list one file under both spellings of the `man` alias; it verifies, and
  the run then stops at the second one. `AliasStopsUninstall` covers every such manifest,
  `BothSpellingsStopUninstall` shows one.
- The single inspection ignores a name that vanished before it was looked at; the set
  inspection refuses it. They agree where every name denotes something.
- A tab is a control character to the packagelist parser, so its test for blank lines
  never meets one.

## Model

| member | source | states |
|---|---|---|
| `WorkspaceCleanup.PreflightDirectoryContents` | source/artifact_workspace.cpp:456-608 | a plan is made exactly when every directory below can be scanned (readable, on the same device, no mount entered), and the plan then describes the tree as it is; symlinks are planned, never followed |
| `WorkspaceCleanup.IndexChildren` | source/artifact_workspace.cpp:610-640 | the planned children are indexed by name, or two of them share a name |
| `WorkspaceCleanup.RequireCleanupPlanUnchanged` | source/artifact_workspace.cpp:610-676 | the full recheck passes if and only if every planned directory can still be opened and still has exactly the planned names, each with the planned inode and type, at every depth |
| `WorkspaceCleanup.RecheckIsExact` | source/artifact_workspace.cpp:610-676 | stated without any plan: the recheck of a plan made from one file system passes on another if and only if both show the same tree below the directory, path by path, and every directory reachable in the second can be opened for reading |
| `WorkspaceCleanup.PlannedAreReachable` | source/artifact_workspace.cpp:456-608 | the directories in an unchanged plan are exactly those reachable by paths of names, symlinks not followed |
| `WorkspaceCleanup.TreePlansOnce` | source/artifact_workspace.cpp:456-608 | where directories form a tree, no directory is planned twice in a plan none of whose names is covered by a mount, which is every plan the scan makes |
| `WorkspaceCleanup.RemovePreflightedContents` | source/artifact_workspace.cpp:691-726 | whatever happens, every name that goes is one the plan lists for that directory; when the tree is as planned and every name may go, the recursion completes and empties exactly the planned directories, all rechecks and rmdirs included |
| `WorkspaceCleanup.RemovePreflightedEntry` | source/artifact_workspace.cpp:691-726 | one turn: recheck, empty a directory, recheck, remove; the exact file system afterwards |
| `WorkspaceCleanup.ReadyGoes` | source/artifact_workspace.cpp:691-726 | once the earlier siblings are gone and a directory's contents are removed, the next rmdir meets an empty directory and the next unlink an existing non-directory |
| `WorkspaceCleanup.TurnSettled` | source/artifact_workspace.cpp:678-726 | every recheck of a turn still holds after earlier siblings, and files hard-linked to them, are gone |
| `WorkspaceCleanup.ArtifactWorkspace.Cleanup` | source/artifact_workspace.cpp:1463-1495 | for any change between scan and recheck: the exact outcome, nothing unlinked unless the whole recheck passed (a directory that can no longer be read included), and on success exactly the workspace's tree and its name gone with every other name unchanged |
| `WorkspaceCleanup.ArtifactWorkspace.RemoveWorkspace` | source/artifact_workspace.cpp:1479-1494 | after a passed recheck removal completes if and only if every name below, and the workspace's own, may be taken out of its directory |
| `WorkspaceCleanup.DetachableMeans` | source/artifact_workspace.cpp:678-726 | the condition under which removal completes looks at exactly the names in the reachable directories: each directory writable, no name covered by a mount and none that stickiness keeps |
| `WorkspaceCleanup.ReadOnlyDirectoryStopsCleanup` | source/artifact_workspace.cpp:1463-1495 | a concrete quiet file system on which cleanup stops midway: a directory inside is not writable, which neither scan nor recheck looks at |
| `WorkspaceCleanup.UnreadableDirectoryRefusesCleanup` | source/artifact_workspace.cpp:610-676 | a concrete pair of file systems that show the same tree and are told apart by the recheck alone: a directory inside can no longer be read, and nothing is unlinked |
| `CleanupConditions.OutcomeMeans` | source/artifact_workspace.cpp:1463-1495 | all five outcomes, each if and only if, in the fields of the file systems before and after the scan: the workspace under its name with its owner and mode 0700; every directory below readable, on its device, and none covered by a mount; the same names, inodes and types at the recheck; every name free to go |
| `CleanupConditions.StaysOnOneDevice` | source/artifact_workspace.cpp:525-531 | a directory below on another device, or under a covered name, refuses the workspace before anything is unlinked; what was cleaned is all on the workspace's device |
| `CleanupConditions.WhatIsLeft` | source/artifact_workspace.cpp:1479-1494 | after a finished cleanup every inode is still there with its type, owner and mode, and every name but the workspace's own and those in the directories below it |
| `CleanupConditions.TreesMean` | source/artifact_workspace.cpp:456-608 | what scan and removal are told of the shape of the file system comes to this: no directory has two entries, and each lies one level below the directory that has its entry |
| `CleanupConditions.CleanUp` | source/artifact_workspace.cpp:1463-1495 | one cleanup from its inputs, in fields throughout: from the file systems before and after the scan, wherever directories form trees, to the outcome and the file system that is left, for a refusal, a stop midway and a finished removal |
| `ArtifactSelection.CheckTargets` | source/artifact_install_plan.cpp:111-144 | the first pass: consistency flags and the three diagnostics lists, exactly |
| `ArtifactSelection.CollectGroup` | source/artifact_install_plan.cpp:150-181 | the consistent targets of one name, each with its reason, are collected and marked classified |
| `ArtifactSelection.GroupTargets` | source/artifact_install_plan.cpp:146-206 | the grouping pass: which targets stay selectable, and the duplicate and conflict records, exactly |
| `ArtifactSelection.MarkProduced` | source/artifact_install_plan.cpp:208-234 | an artifact is unique if and only if its name is valid and no other artifact carries it; each repeat is recorded against the smallest index |
| `ArtifactSelection.MatchTargets` | source/artifact_install_plan.cpp:236-273 | missing and matched targets, exactly, and the artifacts taken |
| `ArtifactSelection.CollectUnselected` | source/artifact_install_plan.cpp:275-279 | the artifacts no match took, in produced order |
| `ArtifactSelection.SelectPackageBaseArtifacts` | source/artifact_install_plan.cpp:97-299 | the passes together compute the selection result that the lemmas below are about |
| `ArtifactSelection.SelectionSucceedsExactly` | source/artifact_install_plan.cpp:97-299 | selection succeeds if and only if the base is valid, every target is consistent, target names and valid produced names are distinct, and every target name was produced |
| `ArtifactSelection.SuccessSelectsEverything` | source/artifact_install_plan.cpp:285-298 | on success selected equals required pointwise, unselected is the rest in produced order, and the names add up to the produced ones as multisets |
| `ArtifactSelection.TargetsArePartitioned` | source/artifact_install_plan.cpp:146-206 | every consistent target is alone, in exactly one same-reason duplicate record or in exactly one conflict record, never in two |
| `ArtifactSelection.GroupExact` | source/artifact_install_plan.cpp:156-174 | a group holds exactly the consistent targets of its name, once each, in ascending order |
| `ArtifactSelection.AgreementMeans` | source/artifact_install_plan.cpp:182-206 | comparing each reason with the first one decides whether all reasons in the group agree |
| `ArtifactSelection.DuplicateRecordsCount` | source/artifact_install_plan.cpp:208-234 | the records of repeated artifacts number the valid produced names minus the distinct ones |
| `ArtifactSelection.DuplicateRecordsCite` | source/artifact_install_plan.cpp:219-234 | each of them cites the smallest index with its name |
| `SelectionDiagnosis.SuccessMeans` | source/artifact_install_plan.cpp:97-299 | told from the request's fields: selection succeeds if and only if the base is valid, every target is well named, of this base, with a known reason and alone with its name, every artifact's name is valid and alone, and each target's name was produced; and what it then selects and leaves |
| `SelectionDiagnosis.DiagnosisMeans` | source/artifact_install_plan.cpp:97-283 | every list of a failure holds exactly the records that the request's fields call for, each once and in order: missing targets, unknown reasons, foreign bases, matches, duplicates, conflicts, repeated artifacts, artifacts left over and invalid identities |
| `IdentityCorrelation.ArtifactPackageIdentitySet.constructor` | source/artifact_identity_set.cpp:15-27 | entries carry their position as artifact index |
| `IdentityCorrelation.ArtifactPackageIdentitySet.Move` | source/artifact_identity_set.cpp:36-40 | moving hands the entries over and deactivates the source |
| `IdentityCorrelation.ArtifactPackageIdentitySet.EntryAt` | source/artifact_identity_set.cpp:47-51 | an active set hands out exactly the entries below its size, each carrying the position it was asked for; an inactive one hands out none |
| `IdentityCorrelation.ArtifactPackageIdentitySet.Size` | source/artifact_identity_set.cpp:42-45 | a size exists exactly while the set is usable |
| `IdentityCorrelation.RequireIndexCoherence` | source/artifact_identity_selection.cpp:18-33 | an inactive set is refused where its size is asked for; for any other none of the three throws is reached |
| `IdentityCorrelation.FindUniquePosition` | source/artifact_identity_selection.cpp:35-50 | the position of a name that occurs once; its throw is unreachable from there |
| `IdentityCorrelation.DiagnosisIsCoherent` | source/artifact_identity_selection.cpp:83-114 | every index in a selection diagnosis is present exactly where its kind demands it |
| `IdentityCorrelation.ProjectSelectionFailure` | source/artifact_identity_selection.cpp:52-117 | the diagnosis is projected without reaching a throw |
| `IdentityCorrelation.CorrelateSelected` | source/artifact_identity_selection.cpp:188-217 | each selected artifact finds its own position, none twice |
| `IdentityCorrelation.CorrelateUnselected` | source/artifact_identity_selection.cpp:219-246 | the remaining positions are the unselected artifacts in aggregate order |
| `IdentityCorrelation.CorrelatePackageBaseArtifactIdentities` | source/artifact_identity_selection.cpp:152-254 | for every active set and every target list no incoherence throw is reached (each is an assertion), and the result is the correlation the lemma below is about |
| `IdentityCorrelation.CorrelationPartitions` | source/artifact_identity_selection.cpp:152-254 | selected and unselected indices partition 0..n-1; selected follows required order with its reasons, unselected aggregate order |
| `IdentityCorrelation.CorrelateIdentities` | source/artifact_identity_selection.cpp:152-254 | from a list of identities to the correlation of its set: every index in the result is that identity's place in the list, and both halves together have its length |
| `IdentityCorrelation.CorrelateAfterMove` | source/artifact_identity_set.cpp:36-51 | after a move the new set correlates to what the old one would have, and the old one is refused |
| `SelectionDiagnosis.FailureMeans` | source/artifact_identity_selection.cpp:52-117 | a failed correlation hands on such a diagnosis of its request: seven lists as they are, matches without the artifact's index, repetitions by name, invalid identities with the index of a target and of nothing else; and it never reports nothing |
| `SelectionDiagnosis.ConflictIsHandedOn` | source/artifact_identity_selection.cpp:74-81 | two good targets of one name with different reasons always come back in one conflict record that holds both |
| `SelectionDiagnosis.CorrelatedMeans` | source/artifact_identity_selection.cpp:152-254 | correlation succeeds if and only if the request can be met; it then holds for each target, in order and with its reason, the identity at the one place that has its name, and in the order of their places exactly the identities that no target names |
| `InstallContent.WriteAll` | source/artifact_workspace.cpp:244-250 | all bytes are appended through signals and short writes, exactly when no write fails; other files are untouched; what that leaves of the script |
| `InstallContent.CopyInstallBytes` | source/artifact_workspace.cpp:233-255 | for every script: the destination grows by the source's bytes, exactly when the source is a regular file within the limit and no read or write of the copy fails; what the copy leaves of the script |
| `InstallContent.ReadChunk` | source/artifact_workspace.cpp:272-279 | signals are retried; only a full count counts as read |
| `InstallContent.RequireSameInstallContent` | source/artifact_workspace.cpp:263-286 | passes if and only if the copy is sealed, the bytes agree and no read of the pass came back short |
| `InstallContent.ShortReadRefusesEqualBytes` | source/artifact_workspace.cpp:270-281 | a short read refuses equal bytes, although the copy loop would have accepted it |
| `InstallContent.FullCountsPass` | source/artifact_workspace.cpp:270-281 | signals and full counts never refuse equal bytes |
| `ArtifactSet.SealCopy` | source/artifact_workspace.cpp:2310-2318 | a sealed copy holds the source's bytes, or nothing stays open; for every script it is made exactly when the source is a regular file within the limit and neither its creation, the copy nor the seal fails |
| `ArtifactSet.SealContent` | source/artifact_workspace.cpp:2310-2322 | archive and signature are sealed together or not at all, and the remaining budget shrinks by exactly what was copied; for every script this succeeds if and only if both originals are regular files within their limits, fit the budget together and no call fails |
| `ArtifactSet.ValidatedPackageArtifactSet.Move` | source/artifact_workspace.cpp:2272-2279 | a move hands over every descriptor and leaves the source inactive and owning none |
| `ArtifactSet.ValidatedPackageArtifactSet.BindRecord` | source/artifact_workspace.cpp:2299-2323 | a record already sealed is skipped; the budget never goes below zero; for every script what is needed for success, exactly, and what it leaves of the script |
| `ArtifactSet.ValidatedPackageArtifactSet.BindRecords` | source/artifact_workspace.cpp:2298-2323 | for every script: binding all records in order succeeds if and only if every unsealed original is a regular file within its limit, everything to be held fits the budget together and no call of sealing the unsealed ones fails; earlier seals are kept |
| `ArtifactSet.ValidatedPackageArtifactSet.FitsTransaction` | source/artifact_workspace.cpp:2287-2297 | the total of all sizes is checked against the transaction limit before any copy |
| `ArtifactSet.ValidatedPackageArtifactSet.BindInstallContent` | source/artifact_workspace.cpp:2285-2325 | after success every sealed copy equals its original within the transaction limit; after failure earlier seals are kept and each record is sealed whole or not at all; for every script it succeeds if and only if the set is usable, the three validity checks pass, the originals fit the transport, the unsealed ones are regular files within their limits, the earlier copies still agree, and no call of its plan fails or, in the recheck, comes back short; what that leaves of the script |
| `ArtifactSet.ValidatedPackageArtifactSet.RequireInstallContent` | source/artifact_workspace.cpp:2327-2337 | for every script: passes if and only if the set is usable, both validity checks pass, every sealed copy equals its original, and no read of archive after signature over all records fails or comes back short; what the pass leaves of the script |
| `CallPlans.PassInTurn` | source/artifact_workspace.cpp:2285-2356 | what two operations one after the other leave of a script: the second runs on what the first left, and fails when the first did |
| `CallPlans.BenignSeals` | source/artifact_workspace.cpp:2298-2323 | copying and sealing any number of records fails for no signal and no short count |
| `CallPlans.NeverShortPass` | source/artifact_workspace.cpp:2327-2335 | with signals and full counts alone no operation fails for its calls, comparisons included |
| `ArtifactSet.ValidatedPackageArtifactSet.CreateInstallInput` | source/artifact_workspace.cpp:2343-2356 | the input is the sealed concatenation archive, signature per index in order; a failure leaves the previous input and every descriptor as they were; for every script it is built if and only if the set is usable, the four validity checks pass, every copy agrees, every index is one of a record and no call of its plan (compare, create, copy, seal, compare) fails; what that leaves of the script |
| `ArtifactSet.ValidatedPackageArtifactSet.RequireValidity` | source/artifact_workspace.cpp:2450-2563 | an inactive or empty set fails; otherwise the verdict on names and identities decides, which `InstallRun.CheckValidity` computes |
| `ArtifactSet.ValidatedPackageArtifactSet.CleanupWorkspace` | source/artifact_workspace.cpp:2570-2600 | a failed validity check leaves everything as it was; a failed workspace cleanup leaves the set pending and retryable with the artifacts given up; otherwise the set is inactive and, where it owned the workspace, holds no descriptor |
| `ArtifactSet.ValidatedPackageArtifactSet.Destroy` | source/artifact_workspace.cpp:2281-2283 | everything still owned is closed, nothing else is |
| `ArtifactSet.ReleaseRecords` | source/artifact_workspace.cpp:2259-2264 | each record's descriptors are closed once |
| `ArtifactSet.ValidatePostBuild` | source/artifact_workspace.cpp:2388-2448 | a refused validation closes what it opened; an accepted one owns exactly the new descriptors, each on the file found; for every script it is accepted if and only if something was expected, the last check agrees and no open fails |
| `ArtifactRuns.Perform` | source/artifact_workspace.cpp:2272-2600 | one operation: a seal stays and a new one holds what the originals held at that step, the input stays or is rebuilt from the copies, active never comes back, and a path is answered exactly while the set is active |
| `ArtifactRuns.Run` | source/artifact_workspace.cpp:2272-2600 | any sequence of bind, recheck, build-input, path, move, retain, cleanup and foreign rewrites leaves a history in which every step is one of those the results below are about, and touches no foreign descriptor |
| `ArtifactRuns.SealedAtBind` | source/artifact_workspace.cpp:2285-2325 | a copy sealed during a run holds what its originals held at the bind that sealed it, however often they were rewritten since |
| `ArtifactRuns.InputIsConcatenation` | source/artifact_workspace.cpp:2343-2356 | the install input of a run is at every later step the concatenation of the sealed copies chosen when it was built |
| `ArtifactRuns.InstallerReadsBoundBytes` | source/artifact_workspace.cpp:2285-2356 | at any point of a run on a freshly validated set the installer's input is, for the records asked for in their order, exactly the bytes their originals held at the binds that sealed them |
| `ArtifactRuns.SmallRun` | source/artifact_workspace.cpp:2285-2356 | such a run with concrete bytes: bind, build, then the original is rewritten, and the input still holds what was bound |
| `ArtifactRuns.NoPathAfterwards` | source/artifact_workspace.cpp:2358-2386 | once a set is not active it hands out no path, whatever is done to it |
| `ArtifactRuns.PathsAreValidated` | source/artifact_workspace.cpp:2377-2381 | every path a run hands out is the one its record was validated with |
| `ArtifactRuns.RunAndDestroy` | source/artifact_workspace.cpp:2259-2600 | over a whole life every owned descriptor is closed exactly once and none leaks |
| `InstallRun.CheckValidity` | source/artifact_workspace.cpp:2450-2559 | a validity check passes if and only if the workspace is in place, the retained descriptors show what was inspected, and a fresh inspection finds the same artifacts |
| `InstallRun.QuietStaysValid` | source/artifact_workspace.cpp:2388-2559 | as long as the file system holds still, an accepted set passes every later check |
| `InstallRun.BindContent` | source/artifact_workspace.cpp:2285-2325 | for every script a bind succeeds if and only if the inspected files fit the limits, the file systems met at its three checks are still valid and no call of its plan fails |
| `InstallRun.BuildInput` | source/artifact_workspace.cpp:2343-2356 | the input holds the chosen artifacts' own bytes; for every script when it is built, told from the file systems met at its four checks, the indices and the calls of its plan |
| `InstallRun.Install` | source/artifact_workspace.cpp:2285-2600 | one install from the inspection to the removal, for any file system at each check and every script: exactly when the input is built, that it is the ordered concatenation of the inspected files' bytes, the exact outcome of the removal, and after it the tree and its name gone and every descriptor closed |
| `InstallRun.QuietMayInstall` | source/artifact_workspace.cpp:2285-2600 | on a quiet file system an install needs no more than an accepted set, content that fits and indices of artifacts |
| `InstallConditions.MayInstallMeans` | source/artifact_workspace.cpp:2285-2600 | when an install may go through, in the fields of every file system it meets: the workspace as it was created, in it nothing but the expected artifacts and their signatures, each the same readable regular file of the user at the inspection and at seven checks, within 8 GiB together, 4 GiB for an artifact and 16 MiB for a signature |
| `InstallConditions.OrdinaryBuildInstalls` | source/artifact_workspace.cpp:2285-2600 | where nothing happens to the file system an ordinary build may be installed, and nothing else: every name in the workspace is an expected one or its signature, every expected one is there, and each is a readable regular file of the user, small enough |
| `InstallConditions.ChosenInOrder` | source/artifact_workspace.cpp:2343-2356 | one more index adds that artifact's bytes and then its signature's to the input |
| `InstallConditions.RemovalMeans` | source/artifact_workspace.cpp:2570-2600 | whether the removal at the end is tried and whether it finishes, in the fields of the file systems it meets |
| `InstallConditions.GoneMeans` | source/artifact_workspace.cpp:1479-1494 | what a finished removal leaves: every inode, and every name but the workspace's own and those in the directories below it |
| `InstallCalls.InstallTakes` | source/artifact_workspace.cpp:2285-2356 | how many system calls an install takes as long as each does all it is asked for, counted from the sizes in pieces of 64 KiB: it fails if and only if one of just these is the first that fails, and leaves the rest of the script untouched |
| `InstallCalls.InstallOnce` | source/artifact_workspace.cpp:2285-2600 | one install from its inputs, in fields throughout: exactly when it goes through, where no call fails and where one does, what the installer gets, whether the removal is tried, and what is left when it finishes |
| `ExpectedArtifacts.ParsePackagelistRecords` | source/artifact_workspace.cpp:797-845 | the distinct non-blank lines of a control-free text, in order, or a refusal |
| `ExpectedArtifacts.RecordsComeBack` | source/artifact_workspace.cpp:803-845 | any distinct, control-free records come back from their newline-joined text with blank lines anywhere |
| `ExpectedArtifacts.AcceptedRecords` | source/artifact_workspace.cpp:803-845 | nothing else is accepted |
| `ExpectedArtifacts.DirectMeans` | source/artifact_workspace.cpp:847-867 | the path check accepts exactly one plain name below the workspace, however the slashes are written |
| `ExpectedArtifacts.CanonicalChildIsDirect` | source/artifact_workspace.cpp:847-867 | the canonical spelling of a child is accepted |
| `ExpectedArtifacts.ValidatePackagelistOutput` | source/artifact_workspace.cpp:1910-1943 | the single pipeline accepts exactly one direct, absent artifact with absent signature |
| `ExpectedArtifacts.ValidatePackagelistOutputSet` | source/artifact_workspace.cpp:2031-2090 | the set pipeline accepts exactly direct, absent records with distinct leaves none of which is another's signature |
| `ExpectedArtifacts.SingleRecordAgrees` | source/artifact_workspace.cpp:1910-2090 | for one record both pipelines accept the same outputs and agree on the entry |
| `ExpectedArtifacts.AcceptedSetIsSound` | source/artifact_workspace.cpp:2046-2072 | every accepted set is non-empty, has distinct leaves, and no leaf is another's .sig |
| `ExpectedArtifacts.TwoSpellingsAreRefused` | source/artifact_workspace.cpp:2046-2059 | two different records that spell one path pass the parser and are refused by the set |
| `PackagelistConditions.RecordsMean` | source/artifact_workspace.cpp:797-845 | a text has these records if and only if it holds no control character but newlines, the records differ, and they are in order its lines with something else than spaces and tabs |
| `PackagelistConditions.DirectSpelt` | source/artifact_workspace.cpp:847-867 | a path is accepted if and only if its characters spell the workspace and one more name, each name after one slash or more and nothing behind the last |
| `PackagelistConditions.SetMeans` | source/artifact_workspace.cpp:2031-2090 | the set pipeline accepts exactly these leaves if and only if the workspace is in place before and after, the records spell them below it, they differ and none is another's .sig, and neither a leaf nor its signature denotes anything yet |
| `PackagelistConditions.SingleMeans` | source/artifact_workspace.cpp:1910-1943 | the single pipeline accepts this leaf under the same condition for one record |
| `PostBuildArtifacts.InspectPostBuildArtifact` | source/artifact_workspace.cpp:999-1055 | the single pipeline accepts exactly an owned, openable artifact with nothing beside it but its signature, still in place at the end |
| `PostBuildArtifacts.RequireOnlyExpected` | source/artifact_workspace.cpp:934-997 | names other than the artifact and its signature refuse the directory unless they are already gone |
| `PostBuildArtifacts.CheckNames` | source/artifact_workspace.cpp:1306-1324 | duplicate leaves and collisions with signature names, exactly |
| `PostBuildArtifacts.InspectPostBuildArtifactSet` | source/artifact_workspace.cpp:1299-1356 | what the set pipeline comes to when the directory may change between inspection, recheck and last recheck |
| `PostBuildArtifacts.ValidateSet` | source/artifact_workspace.cpp:2388-2413 | the guards for empty sets, duplicates and collisions never fire after the workspace match |
| `PostBuildArtifacts.AcceptedSetMatches` | source/artifact_workspace.cpp:1997-2024 | an accepted packagelist meets every later condition on names |
| `PostBuildArtifacts.SetImpliesSingle` | source/artifact_workspace.cpp:999-1356 | whatever changes meanwhile, what the set pipeline accepts for one entry the single one accepts, with the same identity |
| `PostBuildArtifacts.QuietPipelinesAgree` | source/artifact_workspace.cpp:999-1356 | on a quiet file system both accept the same directories |
| `PostBuildArtifacts.ValidateSingle` | source/artifact_workspace.cpp:2130-2158 | the single pipeline's whole validation: accepted if and only if the workspace is in place before and after, the expectation belongs to it and the inspection accepts; the result carries the expected path and the inspected file |
| `PostBuildArtifacts.RunsAgree` | source/artifact_workspace.cpp:1910-2448 | from the text of a packagelist to the validated artifact: whatever changes meanwhile, a set of one is also accepted by the single pipeline with the same path, name and file; and when nothing changes after the build, the single pipeline accepts exactly the runs in which the set pipeline accepts one artifact |
| `PostBuildConditions.SetAcceptsExactly` | source/artifact_workspace.cpp:1299-1356 | for any three file systems, in their fields: the set inspection accepts these artifacts if and only if the directory can be read and holds nothing else, and each name denotes the same readable regular file of its owner from the inspection to the last recheck |
| `PostBuildConditions.QuietSetAccepts` | source/artifact_workspace.cpp:1299-1356 | where nothing changes it accepts if and only if every name in the readable directory is a leaf or its signature, every leaf is there, and each of them is a readable regular file of its owner |
| `PostBuildConditions.SingleAcceptsExactly` | source/artifact_workspace.cpp:999-1055 | the same for the single inspection and any two file systems |
| `PostBuildConditions.QuietSingleAccepts` | source/artifact_workspace.cpp:999-1055 | and where nothing changes |
| `PostBuildConditions.ValidationAcceptsExactly` | source/artifact_workspace.cpp:2388-2448 | the set pipeline's whole validation: that, in the workspace as it was created, for entries with their paths below it |
| `PostBuildConditions.SingleValidationAcceptsExactly` | source/artifact_workspace.cpp:2130-2158 | the single pipeline's whole validation |
| `DiagnosticText.BoundedArtifactDiagnosticValue` | source/artifact_workspace.cpp:384-406 | the loop computes the escaped first 96 bytes and the ellipsis |
| `DiagnosticText.BoundedIsPrintable` | source/artifact_workspace.cpp:384-406 | only printable ASCII, at most 4*96+3 characters |
| `DiagnosticText.LookAlike` | source/artifact_workspace.cpp:384-406 | two values look alike if and only if their first 96 bytes agree and both or neither were cut |
| `DiagnosticText.BoundedShows` | source/artifact_workspace.cpp:384-406 | by character codes: the text shows the first 96 bytes, a printable one as itself, the backslash doubled, any other one as \x and its two lower-case digits, and then three dots if and only if there were more |
| `CliAuthority.Exporter.PrintMaskNames` | scripts/export_cli_authority.cpp:230-252 | the names of the set bits joined with plus, none for zero, unknown for bits without a name |
| `CliAuthority.Exporter.PrintOperandTerms` | scripts/export_cli_authority.cpp:324-336 | comma-separated terms, * for unbounded |
| `CliAuthority.Exporter.PrintRelations` | scripts/export_cli_authority.cpp:349-367 | comma-separated relations of seven colon-separated fields |
| `CliAuthority.Exporter.PrintForm` | scripts/export_cli_authority.cpp:413-435 | the eight tab-separated fields of one record and a line end |
| `CliAuthority.Exporter.PrintOperations` | scripts/export_cli_authority.cpp:492-523 | the closed operations, each announced once and followed by its forms, a line each |
| `CliAuthority.IsCompleteOptionProjectionOrder` | scripts/export_cli_authority.cpp:437-450 | true if and only if the order lists every option exactly once |
| `CliAuthority.NoneLeftOut` | scripts/export_cli_authority.cpp:437-450 | the pigeonhole: as many different identities as there are options leave none out, and conversely |
| `CompletionLoader.ParseOperandTerms` | scripts/generate_completions.py:316-332 | all terms in order, or a refusal |
| `CompletionLoader.ParseOptionRelations` | scripts/generate_completions.py:280-313 | all relations in order, or a refusal |
| `CompletionLoader.ParseFormRecord` | scripts/generate_completions.py:448-466 | the form record of a line |
| `CompletionLoader.ParseExportedGrammar` | scripts/generate_completions.py:380-509 | the loop over the document's lines gives the grammar that the lemmas on documents are about, or a refusal; a line that is no record of a known kind with its number of fields is refused |
| `CliRoundTrip.MaskRoundTrip` | scripts/generate_completions.py:267-277 | a printed mask is loaded as its names if and only if every bit has a name; otherwise it is refused |
| `CliRoundTrip.MaskRecovered` | scripts/export_cli_authority.cpp:230-252 | the bits of the printed names add up to the mask |
| `CliRoundTrip.TermRoundTrip` | scripts/generate_completions.py:316-332 | a printed term comes back, * included, if and only if its range is not empty |
| `CliRoundTrip.RelationRoundTrip` | scripts/generate_completions.py:280-313 | a printed relation comes back if and only if both masks are named |
| `CliRoundTrip.FormRoundTrip` | scripts/generate_completions.py:448-466 | the line of a printed form is loaded as the form if and only if its operation is closed, its ranges are not empty and its masks are named; otherwise it is refused |
| `CliRoundTrip.NothingIsLost` | scripts/export_cli_authority.cpp:413-435 | two accepted forms that load alike are the same form |
| `CliDocument.LinesComeBack` | scripts/generate_completions.py:380-381 | the printed lines come back from the text, whatever they hold but one of the ten characters that end a line |
| `CliDocument.DocumentRoundTrip` | scripts/generate_completions.py:363-466 | a printed grammar is loaded as the operations it was printed from if and only if no operation is announced twice and every form has ranges and names; otherwise the document is refused |
| `CliDocument.GrammarHolds` | scripts/generate_completions.py:435-466 | the grammar so loaded holds each operation with its forms in their order and nothing else |
| `CliDocument.DocumentLosesNothing` | scripts/export_cli_authority.cpp:492-523 | two documents that load alike hold the same operations with the same forms |
| `WireWords.TermIsPrinted` | scripts/export_cli_authority.cpp:324-336 | a term prints as its kind's own word, the least and the most number, and a star for the largest 64-bit one, between colons |
| `WireWords.RelationIsPrinted` | scripts/export_cli_authority.cpp:349-367 | a relation prints as seven fields, each the word of its value; the masks print as the words of their set bits from the lowest one, and unknown where they have others |
| `WireWords.FormIsPrinted` | scripts/export_cli_authority.cpp:413-435 | a form prints as eight fields between tabs, with the words of its policy, ordering and tail |
| `WireWords.OperationIsPrinted` | scripts/export_cli_authority.cpp:492-523 | a document prints operation by operation: its token, announced as closed, and then its forms, each on a line |
| `WireWords.KnownWords` | scripts/generate_completions.py:280-332 | the loader knows exactly the words that the exporter has |
| `WireWords.TermMeans` | scripts/generate_completions.py:316-332 | what is loaded from a printed term, without the exporter's tables: which terms are accepted, their numbers and the word that stands for each kind |
| `WireWords.RelationMeans` | scripts/generate_completions.py:280-313 | what is loaded from a printed relation: accepted if and only if its masks are below 16 and 8, with the word that stands for each value and for each single bit |
| `WireWords.FormMeans` | scripts/generate_completions.py:448-466 | what is loaded from a printed form: token, syntax, the word for each policy, ordering and tail, and its items in order |
| `WireWords.DocumentMeans` | scripts/generate_completions.py:363-466 | a printed document is loaded if and only if no operation stands in it twice, no term asks for more than it allows and no mask has a bit without a word; and it then holds each operation, closed and with its forms in order, and no other |
| `LoaderConditions.IntegerMeans` | scripts/generate_completions.py:241-248 | by character codes: an integer is blanks, perhaps a sign, digits with underscores only between two of them, and blanks; and its value |
| `LoaderConditions.NameSetMeans` | scripts/generate_completions.py:267-277 | a set of names is read if and only if they stand between plus signs, are known and different, and none stands alone |
| `LoaderConditions.TermMeans` | scripts/generate_completions.py:316-332 | any text is read as this term if and only if it has three fields between colons that are a known kind, a number and a star or a number not below it |
| `LoaderConditions.RelationMeans` | scripts/generate_completions.py:280-313 | any text is read as this relation if and only if it has seven fields between colons, each one of its words, an identity or a set of names |
| `LoaderConditions.LineMeans` | scripts/generate_completions.py:380-466 | what any line makes of any grammar: it announces an operation in a mode for the first time, adds a form behind those of a closed operation, or is a record of another kind; and nothing else is taken |
| `LoaderConditions.NextLineMeans` | scripts/generate_completions.py:380-381 | where lines end, by character codes: at any of ten characters, a carriage return and the newline behind it counting once |
| `LoaderConditions.DocumentMeans` | scripts/generate_completions.py:363-509 | a document is loaded if and only if every line is, one after the other from the empty grammar on |
| `TextLists.SplitJoin` | scripts/generate_completions.py:251-257 | joining separator-free pieces and splitting gives them back |
| `TextLists.JoinSplit` | scripts/generate_completions.py:251-257 | splitting and joining gives the text back |
| `TextLists.DecimalRoundTrip` | scripts/generate_completions.py:241-248 | decimal printing and reading are inverse |
| `UpdatePreflight.IsValidNormalSkipSnapshot` | source/aur_update_execution_preflight.hpp:285-353 | accepted if and only if exactly one issue gives the skip's reason, all others none, and the update matches the kind |
| `UpdatePreflight.IsValidTargetSkipSnapshot` | source/aur_update_execution_preflight.hpp:498-531 | the per-target check, by status |
| `UpdatePreflight.CountReferences` | source/aur_update_execution_preflight.hpp:593-611 | how many targets a blocker names; the rejection of self-references inside it cannot fire |
| `UpdatePreflight.CheckSkipped` | source/aur_update_execution_preflight.hpp:614-651 | every skipped target has an index of its own, and a required one is named; the rejection of a named independent skip cannot fire |
| `UpdatePreflight.HasValidPolicySnapshot` | source/aur_update_execution_preflight.hpp:568-652 | the triple-nested check comes to the declarative condition without its redundant rejections |
| `UpdatePreflight.OwnersAreUnfinished` | source/aur_update_execution_preflight.hpp:498-531 | every owner of a blocker is Unsupported or Incomplete |
| `UpdatePreflight.ReferencedTargets` | source/aur_update_execution_preflight.hpp:546-566 | what a blocker can name: a required skip without bootstrap intent, or an incomplete bootstrap |
| `UpdatePreflight.NoSelfReference` | source/aur_update_execution_preflight.hpp:599-607 | no skipped target is named by an issue of its own |
| `UpdatePreflight.NotNamed` | source/aur_update_execution_preflight.hpp:637-649 | no blocker names an independent skip |
| `UpdatePreflight.BlockerNamesOne` | source/aur_update_execution_preflight.hpp:585-613 | each blocker names exactly one target, and never its owner when that is a required skip |
| `UpdatePreflight.RequiredSkipIsNamed` | source/aur_update_execution_preflight.hpp:614-651 | every required skip is named by another target, which is unfinished |
| `UpdatePreflight.FinishedHasNoRequiredSkip` | source/aur_update_execution_preflight.hpp:568-652 | a snapshot of executable and skipped targets has no required skip |
| `UpdatePreflight.BlockingSkipsOnlyNormal` | source/aur_update_execution_preflight.hpp:498-531 | under BlockOperation only up-to-date and non-AUR targets are skipped |
| `UpdatePreflight.SkippedEntriesAreUnique` | source/aur_update_execution_preflight.hpp:628-649 | a skipped target shares its plan entry with no other target |
| `PreflightConditions.TargetMeans` | source/aur_update_execution_preflight.hpp:498-531 | the check of one target in the fields of its update and issues: what each kind of skip asks for, and that issues carry reasons to check and blockers exactly where they must |
| `PreflightConditions.SnapshotMeans` | source/aur_update_execution_preflight.hpp:568-652 | a snapshot is accepted if and only if its targets are sound and, where independent targets may be skipped, every blocker names just one target and every target skipped to be checked has an entry of its own and, if it was required, a blocker that names it; all in fields, without the program's counting |
| `PreflightConditions.SkippedIsNotNewer` | source/aur_update_execution_preflight.hpp:325-345 | of nothing that an accepted snapshot skips does the AUR have a newer version, nor one that could not be compared |
| `InstallManifest.ParseAbsolutePath` | cmake/MoguetUninstall.cpp:97-134 | the scan accepts and splits exactly the canonical absolute paths |
| `InstallManifest.AcceptsExactlyCanonical` | cmake/MoguetUninstall.cpp:97-134 | a text is accepted if and only if it is / and proper components joined with slashes, and the components are unique |
| `InstallManifest.ParseManifestEntries` | cmake/MoguetUninstall.cpp:221-250 | the entries of distinct canonical lines within the limit, or a refusal |
| `InstallManifest.ManifestRoundTrip` | cmake/MoguetUninstall.cpp:221-250 | distinct canonical entries come back from their newline-joined text, with or without a final newline |
| `InstallManifest.ManifestAccepts` | cmake/MoguetUninstall.cpp:221-250 | nothing else is accepted |
| `InstallManifest.IsStrictlyBeneath` | cmake/MoguetUninstall.cpp:252-264 | true if and only if the root's components are a proper prefix |
| `InstallManifest.BeneathIsTextual` | cmake/MoguetUninstall.cpp:252-264 | that is the same as the text starting with the root and a slash |
| `InstallManifest.ParseAllowedRoots` | cmake/MoguetUninstall.cpp:266-277 | the given roots, each once, if all are canonical |
| `InstallManifest.ValidateAllowedEntry` | cmake/MoguetUninstall.cpp:279-288 | the depth of the first root the entry is beneath |
| `InstallManifest.DepthMeans` | cmake/MoguetUninstall.cpp:279-288 | an entry passes if and only if some allowed root is above it |
| `ManifestConditions.PathMeans` | cmake/MoguetUninstall.cpp:97-134 | by characters: a text is this path if and only if it spells the names with one slash before each, none of them empty, a dot, two dots or with a slash or NUL inside, or is the root where that is allowed |
| `ManifestConditions.ManifestMeans` | cmake/MoguetUninstall.cpp:221-250 | a text is the manifest of these entries if and only if it is their lines one after the other, the last newline optional, of 1 to 4096 different entries, each naming something below the root on one line |
| `ManifestUninstall.OpenCandidateParent` | cmake/MoguetUninstall.cpp:335-403 | the walk to an entry's directory with its safety checks and the one alias |
| `ManifestUninstall.ParentIsWhereThePathLeads` | cmake/MoguetUninstall.cpp:294-403 | no symlink is followed on the way, except that usr/local/share/man may stand for usr/local/man, and every directory on it is safe |
| `ManifestUninstall.VerifiedLeadsToSame` | cmake/MoguetUninstall.cpp:463-491 | a candidate that verifies, whatever changed, still has its path lead to the very directory its name is unlinked from |
| `ManifestUninstall.VerifyCandidateIdentity` | cmake/MoguetUninstall.cpp:463-491 | passes if and only if every ancestor and the file itself have the recorded identity |
| `ManifestUninstall.ParentFromKept` | cmake/MoguetUninstall.cpp:335-403 | files that go do not change the way to a directory |
| `ManifestUninstall.VerifiedKept` | cmake/MoguetUninstall.cpp:463-491 | a verified candidate stays verified until its own name goes |
| `ManifestUninstall.RemoveCandidates` | cmake/MoguetUninstall.cpp:493-518 | if any candidate fails verification nothing is unlinked; otherwise the names go in order, and all of them if and only if no two are the same name of one directory and each may go |
| `ManifestUninstall.AllMayGoMeans` | cmake/MoguetUninstall.cpp:504-517 | the turns all succeed exactly under that condition |
| `ManifestUninstall.PrepareCandidates` | cmake/MoguetUninstall.cpp:522-546 | everything before the first removal |
| `ManifestUninstall.Uninstall` | cmake/MoguetUninstall.cpp:493-553 | the whole run when the file system may change between inspection and removal: the exact outcome and the exact file system |
| `ManifestUninstall.PreparedAreCandidates` | cmake/MoguetUninstall.cpp:412-461 | on a quiet file system everything that was inspected verifies |
| `ManifestUninstall.TakenNamesAreManifestFiles` | cmake/MoguetUninstall.cpp:252-288 | every name taken is the leaf of a manifest entry strictly beneath an allowed root, where its path leads, and an owned regular file |
| `ManifestUninstall.ExistingFilesAreTaken` | cmake/MoguetUninstall.cpp:412-461 | every entry whose file exists is among the names taken |
| `ManifestUninstall.AliasSpellingsMeet` | cmake/MoguetUninstall.cpp:358-388 | the two spellings around the alias resolve to one directory |
| `ManifestUninstall.AliasStopsUninstall` | cmake/MoguetUninstall.cpp:493-518 | a manifest that lists an existing file under both spellings verifies and still cannot finish |
| `ManifestUninstall.BothSpellingsStopUninstall` | cmake/MoguetUninstall.cpp:493-553 | such a manifest of two lines, and a file system of seven inodes where nothing else is wrong |
| `UninstallConditions.ModeMeans` | cmake/MoguetUninstall.cpp:301-301 | in the octal digits of a mode: others may write if and only if the group's or the others' digit is 2, 3, 6 or 7, and it is sticky if and only if its special digit is odd |
| `UninstallConditions.ParentExactly` | cmake/MoguetUninstall.cpp:294-403 | the way to an entry's directory, in fields and digits: which directories it passes, that each belongs to root or the user and is closed to others unless it is sticky and above the install root, where the one link stands in, and when there is no way or it is refused |
| `UninstallConditions.InspectionMeans` | cmake/MoguetUninstall.cpp:412-461 | what is found for an entry: its file at the end of the way, a regular one of the user and closed to others; nothing where the way or the file is missing; a refusal for everything else |
| `UninstallConditions.RootMeans` | cmake/MoguetUninstall.cpp:266-288 | the depth that counts is that of the first given root above the entry |
| `UninstallConditions.PreparedMeans` | cmake/MoguetUninstall.cpp:522-546 | everything before the first removal passes if and only if the roots and the manifest are, and every entry is settled in this way |
| `UninstallConditions.TakenMeans` | cmake/MoguetUninstall.cpp:493-553 | the names taken are exactly those of the existing files so found, in the directories where their ways end |
| `UninstallConditions.WritableWayRefuses` | cmake/MoguetUninstall.cpp:294-333 | a directory on the way that the group or others may write, and that is not excused by stickiness, refuses the whole manifest |
| `UninstallConditions.WritableFileRefuses` | cmake/MoguetUninstall.cpp:452-454 | and so does a file of an entry that the group or others may write |
| `UninstallConditions.VerifiedExactly` | cmake/MoguetUninstall.cpp:463-491 | a candidate verifies later if and only if its way passes the same directories, with the same types, owners, groups and modes, and ends at the same file |
| `UninstallConditions.RemovalMeans` | cmake/MoguetUninstall.cpp:493-518 | the turns go up to the first candidate whose name is gone already or is not let go by its directory; nothing else is missing afterwards, and all go if and only if every one is let go in turn |
| `VersionGuard.VersionFactors` | source/artifact_install_executor.cpp:17-42 | the text of a version is accepted and gives its parts back |
| `VersionGuard.AcceptsExactlyVersions` | source/artifact_install_executor.cpp:17-42 | exactly [digits:]pkgver-digits[.digits] is accepted, each text in one way only |
| `VersionGuard.ValidateAutomaticInstall` | source/artifact_install_executor.cpp:231-297 | permitted if and only if identity, evidence, observation and both comparisons hold; a refusal reports the first check that fails, in the program's order, with its versions |
| `VersionGuard.RunsOnlyGoForward` | source/artifact_install_executor.cpp:231-297 | along any run of guarded updates the installed version strictly increases, never repeats, and is never below the RPC version of its step |
| `VersionGuard.PromotionsStay` | source/artifact_install_plan.cpp:359-395 | over any sequence of requests the package ends up explicit if and only if it was so at first or some request that was not refused asked for it, skipped installs included; refused are exactly the promotions that a skipped install would lose |
| `GuardConditions.VersionMeans` | source/artifact_install_executor.cpp:17-42 | a full version by character codes: perhaps digits and a colon; visible characters but no colon, slash or hyphen; a hyphen; and digits with perhaps a dot and digits |
| `GuardConditions.PermissionMeans` | source/artifact_install_executor.cpp:231-297 | when the guard permits, in the fields of what was asked for, built and installed and in the answers of the comparison |
| `GuardConditions.ReportMeans` | source/artifact_install_executor.cpp:231-297 | which failure it reports, for each kind the fields that decide it |
| `GuardConditions.InstalledOnlyRises` | source/artifact_install_executor.cpp:231-297 | whatever a run of permitted updates installs is newer than anything installed at any earlier time of the run and not below what the AUR showed |
| `GuardConditions.DirectiveMeans` | source/artifact_install_plan.cpp:359-395 | which directive an install gets and when it gets none, for every combination of what is asked for and installed |
| `GuardConditions.RequestsMean` | source/artifact_install_plan.cpp:359-395 | over any sequence of requests, told from their fields: explicit at the end if and only if it was so at first or one asks for it that is not skipped as the same version |
| `ConstraintMetadata.ProjectArray` | source/aur_constraint_metadata.cpp:33-133 | all items in order, or the first that does not parse |
| `ConstraintMetadata.ProjectConstraintMetadata` | source/aur_constraint_metadata.cpp:203-287 | succeeds if and only if every item of every field parses, keeping all orders; otherwise reports the first bad item in field-then-index order |
| `ConstraintMetadata.ProjectedMetadataNeverThrows` | source/aur_constraint_metadata.cpp:167-199 | projected metadata never makes the provider constructor throw |
| `ConstraintMetadata.ChainSucceedsExactly` | source/aur_constraint_metadata.cpp:326-400 | a chain of refreshes succeeds if and only if every candidate, in whatever order, still offers the package, capability and version selected at first; and then the result is what refreshing against the last candidate alone gives |
| `ConstraintMetadata.ChainKeepsSelection` | source/aur_constraint_metadata.cpp:326-400 | along any chain of successful refreshes name, base, capability, provided version and verdict stay fixed |
| `ConstraintMetadata.RefreshedIsAsChosen` | source/aur_constraint_metadata.cpp:289-400 | from the first choice of a provider through any number of refreshes the selection stays the one that was chosen; refreshing against that candidate alone changes nothing |
| `ProviderConditions.ProjectionMeans` | source/aur_constraint_metadata.cpp:203-263 | projection succeeds if and only if all six lists parse; otherwise it reports the first item that does not, with the lists in their order and each read by its own parser |
| `ProviderConditions.MetadataMeans` | source/aur_constraint_metadata.cpp:264-287 | the projected metadata field by field: known, missing and invalid versions with their sources, items in order, conflicts before replacements |
| `ProviderConditions.VerdictMeans` | source/dependency_constraint.cpp:164-179 | the verdict for each operator as a condition on the comparison of the provided version with the required one, and for versions that are unknown or invalid |
| `ProviderConditions.ChoiceMeans` | source/aur_constraint_metadata.cpp:167-199 | what is chosen from metadata: the first capability of the required name with all fields of its provider; none where no capability has the name; an exception where its versions do not fit |
| `ProviderConditions.RefreshMeans` | source/aur_constraint_metadata.cpp:326-400 | every outcome of a refresh in fields: which candidates are about another package, what is reported without metadata, and when the first capability of the name is still the one selected |
| `ProviderConditions.VerdictStays` | source/aur_constraint_metadata.cpp:289-400 | through any refreshes the verdict is the one the requirement's operator gives on the version that the chosen candidate provided |

## Left out

- The `openat2` and `/proc` paths, `errno` texts and the system calls that fail for reasons outside the file system model.
- Changes between a final identity check and its own unlink, which the program itself rules out.
- Descriptors of cleanup plans and of uninstall candidates: their owners are scoped objects; the model keeps the inode they pin.
- Name components that are not text: bytes outside ASCII, locale-dependent character classes, and Unicode digits in the generator.
- The exporter's and the loader's other records (OPTION, DELEGATED and the like, and open operations), the checks the loader makes once all lines are read, and the scanner of option tokens in syntax texts: the same list and mask formats again, or regular expressions.
- CompletionLoader.ParseExportedGrammar: a record of another kind leaves the operations alone once its number of fields is right, where the program also reads its fields and refuses those it does not know.
- The rendering of Bash, Zsh and Fish completions.
- The `expected_full_version` pin of a required artifact outside the version guard, and the match of recorded full versions.
- `validate_single_output_artifact` and the command line of `execute_prepared_artifact_install`: case analysis without a property across functions.
- Reading the manifest file (its size limit and file checks), the uninstaller's options and the walk to DESTDIR: the manifest's text, the allowed roots and the trusted root are inputs.
- The provenance binding of expected artifacts to a makepkg context.
- Creation of a workspace and its rollback.
- The diagnostics texts of refusals, localization and logging.
- Provider origins other than the AUR, the required-devel relation projection and the resolver that builds a preflight.
- The affected roots of a blocker, and the contents of a projection or relation issue: the snapshot check only asks whether they are there.
- Pacman itself: `ReasonAfter` states what it does with a directive.
- ArtifactSet.ValidatedPackageArtifactSet.RequireValidity: the inspection behind it is a verdict here, because the descriptor model has no directories; `InstallRun.CheckValidity` is that inspection, on a file system that holds still during one check.
- ArtifactSet.ValidatedPackageArtifactSet.CleanupWorkspace: whether the workspace could be removed is an argument here; `InstallRun.Install` takes it from the directory model.
- Rewriting of an original in the middle of a copy or of a comparison: between two calls of a set anything may be rewritten, during one call the bytes hold still.
- The later validity checks and the cleanup of a single validated artifact: they are those of a set of one.
- What a caller does with a set after a refused bind or build: `InstallRun.Install` hands it back, and `ArtifactRuns.RunAndDestroy` is about its end.
