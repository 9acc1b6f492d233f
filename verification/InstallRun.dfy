/**
 One install from end to end: the workspace is inspected after the build, the
 artifacts' content is bound, the installer's input is built from the bound copies,
 and the workspace is removed.  The directory model decides every validity check
 and the removal; the descriptor model holds the bytes.
 */
module InstallRun {
  import opened Wrappers
  import opened InstallContent
  import opened CallPlans
  import opened ArtifactSet
  import FileSystem
  import ExpectedArtifacts
  import PostBuildArtifacts
  import WorkspaceCleanup

  type Fs = FileSystem.Fs
  type Inode = FileSystem.Inode
  type Inspected = PostBuildArtifacts.Inspected

  /** Whose workspace is validated against which packagelist. */
  datatype Setup = Setup(
    effectiveUser: nat, place: ExpectedArtifacts.Place, expectedDirectory: Inode,
    entries: seq<ExpectedArtifacts.Entry>)

  /** The file system as the run finds it: during the inspection, at each of the
      eight validity checks that follow, and once the tree has been read for removal. */
  datatype World = World(inspected: Fs, later: Fs, last: Fs, checks: seq<Fs>, afterPreflight: Fs)

  const CHECKS: nat := 8

  function OwnersOf(setup: Setup): PostBuildArtifacts.Owners {
    PostBuildArtifacts.Owners(setup.effectiveUser, setup.effectiveUser)
  }

  // ----- a validity check -----

  /** The retained descriptors still show what was inspected. */
  predicate IsRetained(fs: Fs, owner: nat, i: Inspected) {
    && FileSystem.Status(fs, i.artifact.inode) == Some(i.artifact)
    && PostBuildArtifacts.IsOwnedFile(fs, i.artifact.inode, owner)
    && (i.signature.Some? ==>
          && FileSystem.Status(fs, i.signature.value.inode) == i.signature
          && PostBuildArtifacts.IsOwnedFile(fs, i.signature.value.inode, owner))
  }

  predicate AreRetained(fs: Fs, owner: nat, accepted: seq<Inspected>) {
    forall i | 0 <= i < |accepted| :: IsRetained(fs, owner, accepted[i])
  }

  /** What a validity check on `fs` asks: the workspace is in place, the descriptors
      are what they were, and a fresh inspection finds the same artifacts. */
  ghost predicate StillValid(fs: Fs, setup: Setup, accepted: seq<Inspected>) {
    && ExpectedArtifacts.IsInPlace(fs, setup.effectiveUser, setup.place)
    && AreRetained(fs, setup.effectiveUser, accepted)
    && PostBuildArtifacts.SetInspectionOf(
         fs, fs, fs, setup.place.directory, ExpectedArtifacts.Leaves(setup.entries), OwnersOf(setup))
       == PostBuildArtifacts.Accepted(accepted)
  }

  method CheckValidity(fs: Fs, setup: Setup, accepted: seq<Inspected>) returns (ok: bool)
    ensures ok <==> StillValid(fs, setup, accepted)
  {
    if !ExpectedArtifacts.IsInPlace(fs, setup.effectiveUser, setup.place)
      || !AreRetained(fs, setup.effectiveUser, accepted) {
      return false;
    }
    var current := PostBuildArtifacts.InspectPostBuildArtifactSet(
      fs, fs, fs, setup.place.directory, ExpectedArtifacts.Leaves(setup.entries), OwnersOf(setup));
    ok := current == PostBuildArtifacts.Accepted(accepted);
  }

  ghost function Validated(world: World, setup: Setup): PostBuildArtifacts.SetInspection {
    if setup.expectedDirectory == setup.place.directory
      && ExpectedArtifacts.IsInPlace(world.inspected, setup.effectiveUser, setup.place)
      && ExpectedArtifacts.IsInPlace(world.last, setup.effectiveUser, setup.place)
      && PostBuildArtifacts.MatchWorkspace(setup.place, setup.entries)
    then PostBuildArtifacts.SetInspectionOf(
      world.inspected, world.later, world.last, setup.place.directory, ExpectedArtifacts.Leaves(setup.entries),
      OwnersOf(setup))
    else PostBuildArtifacts.Refused
  }

  /** As long as nothing happens to the file system an accepted set stays valid. */
  lemma QuietStaysValid(fs: Fs, setup: Setup, checks: seq<Fs>, afterPreflight: Fs)
    requires Validated(World(fs, fs, fs, checks, afterPreflight), setup).Accepted?
    ensures StillValid(fs, setup, Validated(World(fs, fs, fs, checks, afterPreflight), setup).artifacts)
  {
    var accepted := Validated(World(fs, fs, fs, checks, afterPreflight), setup).artifacts;
    var leaves, owners := ExpectedArtifacts.Leaves(setup.entries), OwnersOf(setup);
    forall i | 0 <= i < |accepted| ensures IsRetained(fs, setup.effectiveUser, accepted[i]) {
      assert PostBuildArtifacts.InspectExpected(fs, setup.place.directory, leaves[i], owners) == Some(accepted[i]);
      assert PostBuildArtifacts.IsUnchanged(fs, setup.place.directory, accepted[i], owners);
    }
  }

  // ----- what the descriptors hold -----

  function BytesOf(contents: map<Inode, Bytes>, inode: Inode): Bytes {
    if inode in contents then contents[inode] else []
  }

  function FileOf(contents: map<Inode, Bytes>, inode: Inode): File {
    File(BytesOf(contents, inode), true, false)
  }

  function FoundOf(contents: map<Inode, Bytes>, accepted: seq<Inspected>): (r: seq<Found>)
    ensures |r| == |accepted|
  {
    seq(|accepted|, i requires 0 <= i < |accepted| =>
      Found(
        accepted[i].leaf, FileOf(contents, accepted[i].artifact.inode),
        if accepted[i].signature.Some? then Some(FileOf(contents, accepted[i].signature.value.inode)) else None))
  }

  /** An artifact's bytes followed by those of its signature. */
  function BytesFor(contents: map<Inode, Bytes>, i: Inspected): Bytes {
    BytesOf(contents, i.artifact.inode)
    + (if i.signature.Some? then BytesOf(contents, i.signature.value.inode) else [])
  }

  function SumOfSizes(contents: map<Inode, Bytes>, accepted: seq<Inspected>): nat {
    if accepted == [] then 0
    else
      var last := |accepted| - 1;
      SumOfSizes(contents, accepted[..last]) + |BytesFor(contents, accepted[last])|
  }

  predicate FitsLimits(contents: map<Inode, Bytes>, i: Inspected) {
    && |BytesOf(contents, i.artifact.inode)| <= MAXIMUM_ARTIFACT_BYTES
    && (i.signature.Some? ==> |BytesOf(contents, i.signature.value.inode)| <= MAXIMUM_SIGNATURE_BYTES)
  }

  predicate CanBeBound(contents: map<Inode, Bytes>, accepted: seq<Inspected>) {
    && SumOfSizes(contents, accepted) <= MAXIMUM_TRANSACTION_BYTES
    && forall i | 0 <= i < |accepted| :: FitsLimits(contents, accepted[i])
  }

  /** The bytes of the chosen artifacts in the order asked for. */
  function Chosen(contents: map<Inode, Bytes>, accepted: seq<Inspected>, indices: seq<nat>): Bytes
    requires AreIndices(indices, |accepted|)
  {
    if indices == [] then []
    else
      var last := |indices| - 1;
      Chosen(contents, accepted, indices[..last]) + BytesFor(contents, accepted[indices[last]])
  }

  /** A record's descriptors hold the bytes of what was inspected. */
  ghost predicate Holds(r: Record, files: map<nat, File>, contents: map<Inode, Bytes>, i: Inspected) {
    && r.hasSignature == i.signature.Some?
    && r.artifact.Some? && r.artifact.value in files && files[r.artifact.value] == FileOf(contents, i.artifact.inode)
    && r.signature.Some? == i.signature.Some?
    && (r.signature.Some? ==>
          && r.signature.value in files
          && files[r.signature.value] == FileOf(contents, i.signature.value.inode))
  }

  ghost predicate HoldAll(
    records: seq<Record>, files: map<nat, File>, contents: map<Inode, Bytes>, accepted: seq<Inspected>)
  {
    |records| == |accepted| && forall i | 0 <= i < |records| :: Holds(records[i], files, contents, accepted[i])
  }

  lemma RetainedHold(
    records: seq<Record>, files: map<nat, File>, contents: map<Inode, Bytes>, accepted: seq<Inspected>)
    requires |records| == |accepted| && RetainsAll(records, files, FoundOf(contents, accepted))
    ensures HoldAll(records, files, contents, accepted)
    ensures forall i | 0 <= i < |records| :: records[i].sealedArtifact.None?
  {
    forall i | 0 <= i < |records|
      ensures Holds(records[i], files, contents, accepted[i]) && records[i].sealedArtifact.None?
    {
      assert Retains(records[i], files, FoundOf(contents, accepted)[i]);
    }
  }

  lemma {:induction false} SizesAreLive(
    records: seq<Record>, files: map<nat, File>, contents: map<Inode, Bytes>, accepted: seq<Inspected>)
    requires HoldAll(records, files, contents, accepted)
    ensures LiveTotal(records, files) == SumOfSizes(contents, accepted)
  {
    if records != [] {
      var last := |records| - 1;
      SizesAreLive(records[..last], files, contents, accepted[..last]);
      assert Holds(records[last], files, contents, accepted[last]);
    }
  }

  function ExtentOf(contents: map<Inode, Bytes>, i: Inspected): Extent {
    Extent(
      |BytesOf(contents, i.artifact.inode)|,
      if i.signature.Some? then Some(|BytesOf(contents, i.signature.value.inode)|) else None)
  }

  function ExtentsOf(contents: map<Inode, Bytes>, accepted: seq<Inspected>): (r: seq<Extent>)
    ensures |r| == |accepted|
  {
    seq(|accepted|, i requires 0 <= i < |accepted| => ExtentOf(contents, accepted[i]))
  }

  lemma ExtentsAreLive(
    records: seq<Record>, files: map<nat, File>, contents: map<Inode, Bytes>, accepted: seq<Inspected>)
    requires HoldAll(records, files, contents, accepted)
    ensures LiveExtents(records, files) == ExtentsOf(contents, accepted)
  {
    forall i | 0 <= i < |records| ensures LiveExtent(records[i], files) == ExtentOf(contents, accepted[i]) {
      assert Holds(records[i], files, contents, accepted[i]);
    }
  }

  lemma {:induction false} AllUnsealed(records: seq<Record>, files: map<nat, File>)
    requires forall i | 0 <= i < |records| :: records[i].sealedArtifact.None?
    ensures UnsealedExtents(records, files) == LiveExtents(records, files)
  {
    if records != [] {
      AllUnsealed(records[..|records| - 1], files);
    }
  }

  lemma ExtentsAreFound(contents: map<Inode, Bytes>, accepted: seq<Inspected>)
    ensures ExtentsFound(FoundOf(contents, accepted)) == ExtentsOf(contents, accepted)
  {
  }

  lemma CanBindMeans(
    records: seq<Record>, files: map<nat, File>, contents: map<Inode, Bytes>, accepted: seq<Inspected>)
    requires RecordsValid(records, files) && HoldAll(records, files, contents, accepted)
    requires forall i | 0 <= i < |records| :: records[i].sealedArtifact.None?
    ensures CanBind(records, files) <==> CanBeBound(contents, accepted)
  {
    SizesAreLive(records, files, contents, accepted);
    forall i | 0 <= i < |records|
      ensures Sealable(records[i], files) <==> FitsLimits(contents, accepted[i])
    {
      assert Holds(records[i], files, contents, accepted[i]);
    }
  }

  lemma {:induction false} InputIsChosen(
    records: seq<Record>, files: map<nat, File>, contents: map<Inode, Bytes>, accepted: seq<Inspected>,
    indices: seq<nat>)
    requires RecordsValid(records, files) && AllAgree(records, files)
    requires HoldAll(records, files, contents, accepted)
    requires AreIndices(indices, |records|)
    ensures InstallInput(records, files, indices) == Chosen(contents, accepted, indices)
  {
    if indices != [] {
      var last := |indices| - 1;
      InputIsChosen(records, files, contents, accepted, indices[..last]);
      SealedBytesAre(records[indices[last]], files, contents, accepted[indices[last]]);
    }
  }

  lemma SealedBytesAre(r: Record, files: map<nat, File>, contents: map<Inode, Bytes>, i: Inspected)
    requires RecordValid(r, files) && ContentAgrees(r, files) && Holds(r, files, contents, i)
    ensures SealedBytes(r, files) == BytesFor(contents, i)
  {
  }

  lemma BoundStillHold(
    start: seq<Record>, before: map<nat, File>, records: seq<Record>, after: map<nat, File>,
    contents: map<Inode, Bytes>, accepted: seq<Inspected>)
    requires HoldAll(start, before, contents, accepted)
    requires RecordsValid(records, after) && Bound(start, before, records, after)
    ensures HoldAll(records, after, contents, accepted)
  {
    forall i | 0 <= i < |records| ensures Holds(records[i], after, contents, accepted[i]) {
      assert Holds(start[i], before, contents, accepted[i]) && OnlySeals(start[i], records[i]);
    }
  }

  lemma SameStillHold(
    records: seq<Record>, before: map<nat, File>, after: map<nat, File>, contents: map<Inode, Bytes>,
    accepted: seq<Inspected>)
    requires HoldAll(records, before, contents, accepted)
    requires forall i | 0 <= i < |records| :: SameFor(records[i], before, after)
    ensures HoldAll(records, after, contents, accepted)
  {
    forall i | 0 <= i < |records| ensures Holds(records[i], after, contents, accepted[i]) {
      assert Holds(records[i], before, contents, accepted[i]) && SameFor(records[i], before, after);
      assert PartOf(records[i], Artifact) == records[i].artifact;
      assert PartOf(records[i], Signature) == records[i].signature;
    }
  }

  // ----- the stages -----

  /** The answers of the coming checks: the set's own last one, then each later one. */
  method AnswersOf(world: World, setup: Setup, accepted: seq<Inspected>) returns (answers: seq<bool>)
    ensures |answers| == |world.checks| + 1 && answers[0]
    ensures forall k | 0 <= k < |world.checks| :: answers[k + 1] <==> StillValid(world.checks[k], setup, accepted)
  {
    answers := [true];
    for k := 0 to |world.checks|
      invariant |answers| == k + 1 && answers[0]
      invariant forall j | 0 <= j < k :: answers[j + 1] <==> StillValid(world.checks[j], setup, accepted)
    {
      var ok := CheckValidity(world.checks[k], setup, accepted);
      answers := answers + [ok];
    }
  }

  /** The checks `from` to `to` pass. */
  ghost predicate StaysValid(world: World, setup: Setup, accepted: seq<Inspected>, from: nat, to: nat) {
    forall k | from <= k < to && k < |world.checks| :: StillValid(world.checks[k], setup, accepted)
  }

  /** `verdicts` are the answers of the checks from `from` on. */
  ghost predicate AnswersFrom(
    verdicts: seq<bool>, world: World, setup: Setup, accepted: seq<Inspected>, from: nat)
  {
    && |verdicts| == |world.checks| - from
    && forall k | 0 <= k < |verdicts| :: verdicts[k] <==> StillValid(world.checks[from + k], setup, accepted)
  }

  lemma NextAnswers(
    verdicts: seq<bool>, world: World, setup: Setup, accepted: seq<Inspected>, from: nat, n: nat)
    requires AnswersFrom(verdicts, world, setup, accepted, from) && from + n <= |world.checks|
    ensures PassesAll(verdicts, n) <==> StaysValid(world, setup, accepted, from, from + n)
    ensures AnswersFrom(After(verdicts, n), world, setup, accepted, from + n)
  {
    if StaysValid(world, setup, accepted, from, from + n) {
      forall k: nat | k < n ensures Passes(verdicts, k) {
        assert StillValid(world.checks[from + k], setup, accepted);
      }
    }
    if PassesAll(verdicts, n) {
      forall k | from <= k < from + n ensures StillValid(world.checks[k], setup, accepted) {
        assert Passes(verdicts, k - from);
      }
    }
  }

  /** The set is usable and its descriptors hold what was inspected. */
  ghost predicate IsReady(
    artifacts: ValidatedPackageArtifactSet, contents: map<Inode, Bytes>, accepted: seq<Inspected>)
    reads artifacts, artifacts.kernel
  {
    && artifacts.Valid() && artifacts.state.Active? && artifacts.records != []
    && HoldAll(artifacts.records, artifacts.kernel.files, contents, accepted)
  }

  /** The calls of binding artifacts that have no copies yet. */
  ghost function FirstBindPlan(extents: seq<Extent>): seq<Step> {
    Plan(Sealing, extents) + Plan(Comparing, extents)
  }

  /** A bind succeeds exactly when the content fits, its three checks pass and none
      of its calls fails. */
  method BindContent(
    artifacts: ValidatedPackageArtifactSet, contents: map<Inode, Bytes>,
    ghost world: World, ghost setup: Setup, ghost accepted: seq<Inspected>)
    returns (bound: bool)
    requires IsReady(artifacts, contents, accepted) && |world.checks| == CHECKS
    requires forall i | 0 <= i < |artifacts.records| :: artifacts.records[i].sealedArtifact.None?
    requires AnswersFrom(artifacts.kernel.verdicts, world, setup, accepted, 0)
    modifies artifacts`records, artifacts`owner, artifacts.kernel
    ensures IsReady(artifacts, contents, accepted)
    ensures artifacts.kernel.files.Keys - artifacts.owner.Keys
         == old(artifacts.kernel.files.Keys - artifacts.owner.Keys)
    ensures bound ==>
      && AllAgree(artifacts.records, artifacts.kernel.files)
      && AnswersFrom(artifacts.kernel.verdicts, world, setup, accepted, 3)
    ensures var pass := Pass(FirstBindPlan(ExtentsOf(contents, accepted)), old(artifacts.kernel.script));
      && (bound <==> CanBeBound(contents, accepted) && StaysValid(world, setup, accepted, 0, 3) && pass.Some?)
      && (bound ==> artifacts.kernel.script == pass.value)
  {
    ghost var start, originals, verdicts := artifacts.records, artifacts.kernel.files, artifacts.kernel.verdicts;
    CanBindMeans(start, originals, contents, accepted);
    ExtentsAreLive(start, originals, contents, accepted);
    AllUnsealed(start, originals);
    NextAnswers(verdicts, world, setup, accepted, 0, 3);
    bound := artifacts.BindInstallContent();
    BoundStillHold(start, originals, artifacts.records, artifacts.kernel.files, contents, accepted);
  }

  /** The input holds the chosen artifacts' bytes; it is built exactly when the
      indices are those of artifacts, its four checks pass and none of its calls
      fails. */
  method BuildInput(
    artifacts: ValidatedPackageArtifactSet, contents: map<Inode, Bytes>, indices: seq<nat>,
    ghost world: World, ghost setup: Setup, ghost accepted: seq<Inspected>)
    returns (input: Option<nat>)
    requires IsReady(artifacts, contents, accepted) && |world.checks| == CHECKS
    requires AllAgree(artifacts.records, artifacts.kernel.files)
    requires AnswersFrom(artifacts.kernel.verdicts, world, setup, accepted, 3)
    modifies artifacts`installInput, artifacts`owner, artifacts.kernel
    ensures IsReady(artifacts, contents, accepted)
    ensures artifacts.kernel.files.Keys - artifacts.owner.Keys
         == old(artifacts.kernel.files.Keys - artifacts.owner.Keys)
    ensures input.Some? ==>
      && AreIndices(indices, |accepted|) && input.value in artifacts.kernel.files
      && artifacts.kernel.files[input.value] == File(Chosen(contents, accepted, indices), true, true)
      && AnswersFrom(artifacts.kernel.verdicts, world, setup, accepted, 7)
    ensures input.Some? <==>
      && StaysValid(world, setup, accepted, 3, 7) && AreIndices(indices, |accepted|)
      && Pass(InputPlan(ExtentsOf(contents, accepted), indices), old(artifacts.kernel.script)).Some?
  {
    ghost var files := artifacts.kernel.files;
    ExtentsAreLive(artifacts.records, files, contents, accepted);
    NextAnswers(artifacts.kernel.verdicts, world, setup, accepted, 3, 4);
    input := artifacts.CreateInstallInput(indices);
    SameStillHold(artifacts.records, files, artifacts.kernel.files, contents, accepted);
    if input.Some? {
      InputIsChosen(artifacts.records, artifacts.kernel.files, contents, accepted, indices);
    }
  }

  // ----- the whole run -----

  datatype InstallOutcome =
    | NotValidated
    | NotOpened
    | NotBound
    | NoInput
    | Installed(input: Bytes, removal: Option<WorkspaceCleanup.CleanupOutcome>)

  lemma OnlyWorkspace(descriptor: nat)
    ensures Bookkept(Workspace(Some(descriptor), true, true), [], None, map[descriptor := OfWorkspace])
  {
  }

  /** Everything an install needs, told from the file system and the files' bytes. */
  ghost predicate MayInstall(world: World, setup: Setup, contents: map<Inode, Bytes>, indices: seq<nat>) {
    && Validated(world, setup).Accepted?
    && var accepted := Validated(world, setup).artifacts;
       && CanBeBound(contents, accepted) && StaysValid(world, setup, accepted, 0, 7)
       && AreIndices(indices, |accepted|)
  }

  /** All the calls of an install below its checks, in order. */
  ghost function InstallPlan(extents: seq<Extent>, indices: seq<nat>): seq<Step>
    requires AreIndices(indices, |extents|)
  {
    Plan(Opening, extents) + (FirstBindPlan(extents) + InputPlan(extents, indices))
  }

  ghost function InstallPass(
    contents: map<Inode, Bytes>, accepted: seq<Inspected>, indices: seq<nat>, script: seq<Outcome>)
    : Option<seq<Outcome>>
    requires AreIndices(indices, |accepted|)
  {
    Pass(InstallPlan(ExtentsOf(contents, accepted), indices), script)
  }

  /** What a bind and the input after it leave of the script. */
  ghost function BuildPass(
    contents: map<Inode, Bytes>, accepted: seq<Inspected>, indices: seq<nat>, script: seq<Outcome>)
    : Option<seq<Outcome>>
    requires AreIndices(indices, |accepted|)
  {
    var bound := Pass(FirstBindPlan(ExtentsOf(contents, accepted)), script);
    if bound.None? then None else Pass(InputPlan(ExtentsOf(contents, accepted), indices), bound.value)
  }

  lemma InstallInTurn(
    contents: map<Inode, Bytes>, accepted: seq<Inspected>, indices: seq<nat>, script: seq<Outcome>)
    requires AreIndices(indices, |accepted|)
    ensures InstallPass(contents, accepted, indices, script) ==
      var made := PassAll(Opening, ExtentsOf(contents, accepted), script);
      if made.None? then None else BuildPass(contents, accepted, indices, made.value)
  {
    var extents := ExtentsOf(contents, accepted);
    PassInTurn(Plan(Opening, extents), FirstBindPlan(extents) + InputPlan(extents, indices), script);
    var made := PassAll(Opening, extents, script);
    if made.Some? {
      PassInTurn(FirstBindPlan(extents), InputPlan(extents, indices), made.value);
    }
  }

  /** The set can be bound: its content fits, three checks pass and no call fails. */
  ghost predicate Binds(
    world: World, setup: Setup, contents: map<Inode, Bytes>, accepted: seq<Inspected>, script: seq<Outcome>)
  {
    && CanBeBound(contents, accepted) && StaysValid(world, setup, accepted, 0, 3)
    && Pass(FirstBindPlan(ExtentsOf(contents, accepted)), script).Some?
  }

  lemma StaysInTurn(world: World, setup: Setup, accepted: seq<Inspected>, from: nat, to: nat, end: nat)
    requires from <= to <= end <= |world.checks|
    ensures StaysValid(world, setup, accepted, from, end) <==>
      StaysValid(world, setup, accepted, from, to) && StaysValid(world, setup, accepted, to, end)
  {
  }

  /** What the cleanup at the end comes to. */
  ghost function RemovalOf(
    world: World, setup: Setup, accepted: seq<Inspected>): Option<WorkspaceCleanup.CleanupOutcome>
    requires |world.checks| == CHECKS
  {
    if StillValid(world.checks[7], setup, accepted) then
      Some(WorkspaceCleanup.CleanupResult(
        world.checks[7], world.afterPreflight, setup.effectiveUser, setup.place.root, setup.place.name,
        setup.place.directory, setup.place.owner, true, true))
    else None
  }

  /** Where nothing happens to the file system before the removal, an install needs no
      more than an accepted set, content that fits and indices of artifacts; and the
      removal is attempted. */
  lemma QuietMayInstall(
    world: World, setup: Setup, contents: map<Inode, Bytes>, indices: seq<nat>)
    requires world.later == world.inspected && world.last == world.inspected
    requires |world.checks| == CHECKS && forall k | 0 <= k < CHECKS :: world.checks[k] == world.inspected
    ensures MayInstall(world, setup, contents, indices) <==>
      && Validated(world, setup).Accepted?
      && CanBeBound(contents, Validated(world, setup).artifacts)
      && AreIndices(indices, |Validated(world, setup).artifacts|)
    ensures Validated(world, setup).Accepted? ==> RemovalOf(world, setup, Validated(world, setup).artifacts).Some?
  {
    if Validated(world, setup).Accepted? {
      var fs := world.inspected;
      assert world == World(fs, fs, fs, world.checks, world.afterPreflight);
      QuietStaysValid(fs, setup, world.checks, world.afterPreflight);
    }
  }

  /** Opens the inspected artifacts; the checks that follow are decided by the world. */
  method OpenSet(
    world: World, setup: Setup, contents: map<Inode, Bytes>, accepted: seq<Inspected>, descriptors: Kernel,
    workspaceDescriptor: nat)
    returns (artifacts: Option<ValidatedPackageArtifactSet>)
    requires |world.checks| == CHECKS && workspaceDescriptor in descriptors.files
    modifies descriptors
    ensures artifacts.None? ==> descriptors.files == old(descriptors.files)
    ensures artifacts.Some? ==>
      && fresh(artifacts.value) && artifacts.value.kernel == descriptors
      && IsReady(artifacts.value, contents, accepted)
      && artifacts.value.workspace == Workspace(Some(workspaceDescriptor), true, true)
      && (forall i | 0 <= i < |artifacts.value.records| :: artifacts.value.records[i].sealedArtifact.None?)
      && descriptors.files.Keys - artifacts.value.owner.Keys == old(descriptors.files).Keys - {workspaceDescriptor}
      && AnswersFrom(descriptors.verdicts, world, setup, accepted, 0)
    ensures var pass := PassAll(Opening, ExtentsOf(contents, accepted), old(descriptors.script));
      && (artifacts.Some? <==> accepted != [] && pass.Some?)
      && (artifacts.Some? ==> descriptors.script == pass.value)
  {
    var answers := AnswersOf(world, setup, accepted);
    descriptors.verdicts := answers;
    OnlyWorkspace(workspaceDescriptor);
    ExtentsAreFound(contents, accepted);
    var found := FoundOf(contents, accepted);
    artifacts := ValidatePostBuild(
      descriptors, Workspace(Some(workspaceDescriptor), true, true), found, map[workspaceDescriptor := OfWorkspace]);
    if artifacts.Some? {
      RetainedHold(artifacts.value.records, descriptors.files, contents, accepted);
    }
  }

  /** The workspace object stands for the place that is validated. */
  ghost predicate IsWorkspaceOf(workspace: WorkspaceCleanup.ArtifactWorkspace, setup: Setup)
    reads workspace
  {
    && workspace.root == setup.place.root && workspace.leaf == setup.place.name
    && workspace.inode == setup.place.directory && workspace.owner == setup.place.owner
    && workspace.ownsPath && workspace.descriptorOpen
  }

  /** Where the removal looks, directories form trees. */
  ghost predicate HasTrees(world: World, shape: WorkspaceCleanup.Shape, shapeAfter: WorkspaceCleanup.Shape) {
    && |world.checks| == CHECKS && WorkspaceCleanup.TreeShaped(world.checks[7], shape)
    && FileSystem.Closed(world.afterPreflight) && WorkspaceCleanup.TreeShaped(world.afterPreflight, shapeAfter)
  }

  /** The tree below the workspace and the workspace's own name are gone, and nothing
      else is. */
  ghost predicate WorkspaceIsGone(world: World, setup: Setup, fs: Fs) {
    && setup.place.root in world.afterPreflight.nodes
    && fs == FileSystem.Without(
         WorkspaceCleanup.Emptied(
           world.afterPreflight, WorkspaceCleanup.DirectoriesBelow(world.afterPreflight, setup.place.directory)),
         setup.place.root, setup.place.name)
  }

  method Validate(world: World, setup: Setup) returns (validated: PostBuildArtifacts.SetInspection)
    ensures validated == Validated(world, setup)
    ensures validated.Accepted? ==> validated.artifacts != []
  {
    validated := PostBuildArtifacts.ValidateSet(
      world.inspected, world.later, world.last, setup.effectiveUser, setup.place, setup.expectedDirectory,
      setup.entries, OwnersOf(setup));
  }

  /** One install.  The input is built exactly when `MayInstall` says so and no call of
      its plan fails; it then holds the chosen artifacts' own bytes in order; and when
      the workspace could be removed at the end, its tree and its name are gone and
      every descriptor of the run is closed. */
  method Install(
    world: World, setup: Setup, contents: map<Inode, Bytes>, indices: seq<nat>, fileSystem: FileSystem.Kernel,
    workspace: WorkspaceCleanup.ArtifactWorkspace, descriptors: Kernel, workspaceDescriptor: nat,
    ghost shape: WorkspaceCleanup.Shape, ghost shapeAfter: WorkspaceCleanup.Shape)
    returns (outcome: InstallOutcome, artifacts: Option<ValidatedPackageArtifactSet>)
    requires |world.checks| == CHECKS && workspaceDescriptor in descriptors.files
    requires IsWorkspaceOf(workspace, setup) && fileSystem.effectiveUser == setup.effectiveUser
    requires HasTrees(world, shape, shapeAfter)
    modifies fileSystem, workspace, descriptors
    ensures outcome.Installed? <==>
      && MayInstall(world, setup, contents, indices)
      && InstallPass(contents, Validated(world, setup).artifacts, indices, old(descriptors.script)).Some?
    ensures outcome.Installed? ==>
      && Validated(world, setup).Accepted? && AreIndices(indices, |Validated(world, setup).artifacts|)
      && outcome.input == Chosen(contents, Validated(world, setup).artifacts, indices)
      && outcome.removal == RemovalOf(world, setup, Validated(world, setup).artifacts)
    ensures outcome.Installed? && outcome.removal == Some(WorkspaceCleanup.Cleaned) ==>
      && WorkspaceIsGone(world, setup, fileSystem.fs)
      && descriptors.files.Keys == old(descriptors.files).Keys - {workspaceDescriptor}
    ensures outcome.NotValidated? <==> !Validated(world, setup).Accepted?
    ensures Validated(world, setup).Accepted? ==>
      var accepted := Validated(world, setup).artifacts;
      var begun := PassAll(Opening, ExtentsOf(contents, accepted), old(descriptors.script));
      && (outcome.NotOpened? <==> begun.None?)
      && (outcome.NotBound? <==> begun.Some? && !Binds(world, setup, contents, accepted, begun.value))
    ensures outcome.NotValidated? || outcome.NotOpened? ==> descriptors.files == old(descriptors.files)
    ensures !outcome.Installed? ==> fileSystem.fs == old(fileSystem.fs)
  {
    artifacts := None;
    var validated := Validate(world, setup);
    if !validated.Accepted? {
      return NotValidated, None;
    }
    var accepted := validated.artifacts;
    outcome, artifacts :=
      MakeInput(world, setup, contents, indices, accepted, descriptors, workspaceDescriptor);
    if outcome.Installed? {
      var removal := Remove(world, setup, accepted, fileSystem, workspace, artifacts.value, shape, shapeAfter);
      outcome := outcome.(removal := removal);
    }
  }

  /** From the inspected artifacts to the installer's input. */
  method MakeInput(
    world: World, setup: Setup, contents: map<Inode, Bytes>, indices: seq<nat>, accepted: seq<Inspected>,
    descriptors: Kernel, workspaceDescriptor: nat)
    returns (outcome: InstallOutcome, artifacts: Option<ValidatedPackageArtifactSet>)
    requires |world.checks| == CHECKS && workspaceDescriptor in descriptors.files && accepted != []
    modifies descriptors
    ensures !outcome.NotValidated?
    ensures var begun := PassAll(Opening, ExtentsOf(contents, accepted), old(descriptors.script));
      && (outcome.NotOpened? <==> begun.None?)
      && (outcome.NotBound? <==> begun.Some? && !Binds(world, setup, contents, accepted, begun.value))
    ensures outcome.Installed? <==>
      && CanBeBound(contents, accepted) && StaysValid(world, setup, accepted, 0, 7)
      && AreIndices(indices, |accepted|)
      && InstallPass(contents, accepted, indices, old(descriptors.script)).Some?
    ensures outcome.Installed? ==>
      && outcome.input == Chosen(contents, accepted, indices)
      && artifacts.Some? && fresh(artifacts.value) && artifacts.value.kernel == descriptors
      && IsReady(artifacts.value, contents, accepted) && artifacts.value.workspace.ownsPath
      && descriptors.files.Keys - artifacts.value.owner.Keys == old(descriptors.files).Keys - {workspaceDescriptor}
      && AnswersFrom(descriptors.verdicts, world, setup, accepted, 7)
    ensures outcome.NotOpened? ==> descriptors.files == old(descriptors.files)
  {
    ghost var script := descriptors.script;
    artifacts := OpenSet(world, setup, contents, accepted, descriptors, workspaceDescriptor);
    if AreIndices(indices, |accepted|) {
      InstallInTurn(contents, accepted, indices, script);
    }
    if artifacts.None? {
      return NotOpened, None;
    }
    outcome := BindAndBuild(artifacts.value, contents, indices, world, setup, accepted);
  }

  /** From the opened artifacts to the installer's input. */
  method BindAndBuild(
    artifacts: ValidatedPackageArtifactSet, contents: map<Inode, Bytes>, indices: seq<nat>,
    ghost world: World, ghost setup: Setup, ghost accepted: seq<Inspected>)
    returns (outcome: InstallOutcome)
    requires IsReady(artifacts, contents, accepted) && |world.checks| == CHECKS
    requires forall i | 0 <= i < |artifacts.records| :: artifacts.records[i].sealedArtifact.None?
    requires AnswersFrom(artifacts.kernel.verdicts, world, setup, accepted, 0)
    modifies artifacts`records, artifacts`installInput, artifacts`owner, artifacts.kernel
    ensures IsReady(artifacts, contents, accepted)
    ensures artifacts.kernel.files.Keys - artifacts.owner.Keys
         == old(artifacts.kernel.files.Keys - artifacts.owner.Keys)
    ensures outcome.NotBound? || outcome.NoInput? || outcome.Installed?
    ensures outcome.NotBound? <==> !Binds(world, setup, contents, accepted, old(artifacts.kernel.script))
    ensures outcome.Installed? <==>
      && CanBeBound(contents, accepted) && StaysValid(world, setup, accepted, 0, 7)
      && AreIndices(indices, |accepted|)
      && BuildPass(contents, accepted, indices, old(artifacts.kernel.script)).Some?
    ensures outcome.Installed? ==>
      && outcome.input == Chosen(contents, accepted, indices)
      && AnswersFrom(artifacts.kernel.verdicts, world, setup, accepted, 7)
  {
    StaysInTurn(world, setup, accepted, 0, 3, 7);
    var bound := BindContent(artifacts, contents, world, setup, accepted);
    if !bound {
      return NotBound;
    }
    var built := BuildInput(artifacts, contents, indices, world, setup, accepted);
    if built.None? {
      return NoInput;
    }
    outcome := Installed(artifacts.kernel.files[built.value].content, None);
  }

  /** The last check, the end of the set's capability, and the workspace's removal. */
  method Remove(
    world: World, setup: Setup, accepted: seq<Inspected>, fileSystem: FileSystem.Kernel,
    workspace: WorkspaceCleanup.ArtifactWorkspace, artifacts: ValidatedPackageArtifactSet,
    ghost shape: WorkspaceCleanup.Shape, ghost shapeAfter: WorkspaceCleanup.Shape)
    returns (removal: Option<WorkspaceCleanup.CleanupOutcome>)
    requires |world.checks| == CHECKS && artifacts.Valid() && artifacts.state.Active? && artifacts.records != []
    requires artifacts.workspace.ownsPath && AnswersFrom(artifacts.kernel.verdicts, world, setup, accepted, 7)
    requires IsWorkspaceOf(workspace, setup) && fileSystem.effectiveUser == setup.effectiveUser
    requires HasTrees(world, shape, shapeAfter)
    modifies fileSystem, workspace, artifacts, artifacts.kernel
    ensures removal == RemovalOf(world, setup, accepted)
    ensures removal == Some(WorkspaceCleanup.Cleaned) ==>
      && WorkspaceIsGone(world, setup, fileSystem.fs)
      && artifacts.kernel.files.Keys == old(artifacts.kernel.files.Keys - artifacts.owner.Keys)
  {
    removal := CleanWorkspace(world, setup, accepted, fileSystem, workspace, shape, shapeAfter);
    var report := artifacts.CleanupWorkspace(removal == Some(WorkspaceCleanup.Cleaned));
    assert removal.Some? ==> !report.NotValid?;
  }

  /** The last check, and the removal when it passes. */
  method CleanWorkspace(
    world: World, setup: Setup, accepted: seq<Inspected>, fileSystem: FileSystem.Kernel,
    workspace: WorkspaceCleanup.ArtifactWorkspace,
    ghost shape: WorkspaceCleanup.Shape, ghost shapeAfter: WorkspaceCleanup.Shape)
    returns (removal: Option<WorkspaceCleanup.CleanupOutcome>)
    requires |world.checks| == CHECKS
    requires IsWorkspaceOf(workspace, setup) && fileSystem.effectiveUser == setup.effectiveUser
    requires HasTrees(world, shape, shapeAfter)
    modifies fileSystem, workspace
    ensures removal == RemovalOf(world, setup, accepted)
    ensures removal == Some(WorkspaceCleanup.Cleaned) ==> WorkspaceIsGone(world, setup, fileSystem.fs)
  {
    fileSystem.fs := world.checks[7];
    var isValid := CheckValidity(world.checks[7], setup, accepted);
    if !isValid {
      return None;
    }
    var removed := workspace.Cleanup(fileSystem, world.afterPreflight, shape, shapeAfter);
    removal := Some(removed);
  }
}
