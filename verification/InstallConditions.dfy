/**
 When an install goes through, told from the fields of the file systems it meets and
 the sizes of the files.
 */
module InstallConditions {
  import opened Wrappers
  import opened FileSystemView
  import opened CallPlans
  import opened InstallContent
  import opened InstallRun
  import opened PostBuildConditions
  import CleanupConditions
  import ExpectedArtifacts
  import FileSystem
  import PostBuildArtifacts
  import WorkspaceCleanup

  type Fs = FileSystem.Fs
  type Inode = FileSystem.Inode
  type Inspected = PostBuildArtifacts.Inspected

  ghost predicate HasWorkspace(fs: Fs, setup: Setup) {
    && setup.place.owner == setup.effectiveUser
    && CleanupConditions.IsWorkspaceAt(
         fs, setup.place.root, setup.place.name, setup.place.directory, setup.effectiveUser)
  }

  /** Nothing but the artifacts with their signatures is in the workspace, each the same
      file of the user at all three moments. */
  ghost predicate HasBuilt(fs: Fs, later: Fs, last: Fs, setup: Setup, accepted: seq<Inspected>) {
    var leaves, user := ExpectedArtifacts.Leaves(setup.entries), setup.effectiveUser;
    && HoldsOnly(fs, setup.place.directory, leaves) && HoldsOnly(later, setup.place.directory, leaves)
    && AreBuilt(fs, later, last, setup.place.directory, leaves, PostBuildArtifacts.Owners(user, user), accepted)
  }

  lemma ValidatedMeans(world: World, setup: Setup, accepted: seq<Inspected>)
    ensures Validated(world, setup) == PostBuildArtifacts.Accepted(accepted) <==>
      && setup.expectedDirectory == setup.place.directory && AreExpectedIn(setup.place, setup.entries)
      && HasWorkspace(world.inspected, setup) && HasWorkspace(world.last, setup)
      && HasBuilt(world.inspected, world.later, world.last, setup, accepted)
  {
    ValidationAcceptsExactly(
      world.inspected, world.later, world.last, setup.effectiveUser, setup.place, setup.expectedDirectory,
      setup.entries, OwnersOf(setup), accepted);
  }

  /** A check during the install passes exactly when the workspace still is what was
      created and holds exactly the accepted files. */
  lemma StillValidMeans(fs: Fs, setup: Setup, accepted: seq<Inspected>)
    requires AreExpectedIn(setup.place, setup.entries)
    ensures StillValid(fs, setup, accepted) <==> HasWorkspace(fs, setup) && HasBuilt(fs, fs, fs, setup, accepted)
  {
    var leaves, owners := ExpectedArtifacts.Leaves(setup.entries), OwnersOf(setup);
    CleanupConditions.InPlaceMeans(
      fs, setup.place.root, setup.place.name, setup.place.directory, setup.place.owner);
    SetAcceptsExactly(fs, fs, fs, setup.place.directory, leaves, owners, accepted);
    if HasBuilt(fs, fs, fs, setup, accepted) {
      BuiltAreRetained(fs, setup, accepted);
    }
  }

  lemma BuiltAreRetained(fs: Fs, setup: Setup, accepted: seq<Inspected>)
    requires HasBuilt(fs, fs, fs, setup, accepted)
    ensures AreRetained(fs, setup.effectiveUser, accepted)
  {
    var leaves, owners := ExpectedArtifacts.Leaves(setup.entries), OwnersOf(setup);
    forall i | 0 <= i < |accepted| ensures IsRetained(fs, setup.effectiveUser, accepted[i]) {
      assert accepted[i].leaf == leaves[i] && IsBuilt(fs, fs, fs, setup.place.directory, accepted[i], owners);
    }
  }

  /** All files together take at most 8 GiB, an artifact 4 GiB and a signature 16 MiB. */
  ghost predicate IsSmallEnough(contents: map<Inode, Bytes>, accepted: seq<Inspected>) {
    && SumOfSizes(contents, accepted) <= 8_589_934_592
    && forall i | 0 <= i < |accepted| ::
         && (accepted[i].artifact.inode in contents ==> |contents[accepted[i].artifact.inode]| <= 4_294_967_296)
         && (accepted[i].signature.Some? && accepted[i].signature.value.inode in contents ==>
               |contents[accepted[i].signature.value.inode]| <= 16_777_216)
  }

  lemma SmallEnoughMeans(contents: map<Inode, Bytes>, accepted: seq<Inspected>)
    ensures CanBeBound(contents, accepted) <==> IsSmallEnough(contents, accepted)
  {
  }

  /** The total counts every artifact and every signature once. */
  lemma SizesAdd(contents: map<Inode, Bytes>, accepted: seq<Inspected>, i: Inspected)
    requires i.artifact.inode in contents && (i.signature.Some? ==> i.signature.value.inode in contents)
    ensures SumOfSizes(contents, []) == 0
    ensures SumOfSizes(contents, accepted + [i]) == SumOfSizes(contents, accepted)
      + |contents[i.artifact.inode]| + (if i.signature.Some? then |contents[i.signature.value.inode]| else 0)
  {
    assert (accepted + [i])[..|accepted|] == accepted;
  }

  /** The files are small enough, were found when the set was validated and are still there
      at each of the seven checks, and every index is one of an artifact. */
  ghost predicate MayInstallThese(
    world: World, setup: Setup, contents: map<Inode, Bytes>, indices: seq<nat>, accepted: seq<Inspected>)
    requires |world.checks| == 8
  {
    && setup.expectedDirectory == setup.place.directory && AreExpectedIn(setup.place, setup.entries)
    && HasWorkspace(world.inspected, setup) && HasWorkspace(world.last, setup)
    && (forall k | 0 <= k < 7 :: HasWorkspace(world.checks[k], setup))
    && (forall j | 0 <= j < |indices| :: indices[j] < |setup.entries|)
    && HasBuilt(world.inspected, world.later, world.last, setup, accepted)
    && (forall k | 0 <= k < 7 :: HasBuilt(world.checks[k], world.checks[k], world.checks[k], setup, accepted))
    && IsSmallEnough(contents, accepted)
  }

  /** An install may go through exactly for some such files, and these are the accepted
      ones. */
  lemma MayInstallMeans(world: World, setup: Setup, contents: map<Inode, Bytes>, indices: seq<nat>)
    requires |world.checks| == 8
    ensures MayInstall(world, setup, contents, indices) <==>
      exists accepted :: MayInstallThese(world, setup, contents, indices, accepted)
    ensures forall accepted | MayInstallThese(world, setup, contents, indices, accepted) ::
      Validated(world, setup) == PostBuildArtifacts.Accepted(accepted)
  {
    if MayInstall(world, setup, contents, indices) {
      TheseMean(world, setup, contents, indices, Validated(world, setup).artifacts);
    }
    forall accepted | MayInstallThese(world, setup, contents, indices, accepted)
      ensures MayInstall(world, setup, contents, indices)
      ensures Validated(world, setup) == PostBuildArtifacts.Accepted(accepted)
    {
      TheseMean(world, setup, contents, indices, accepted);
    }
  }

  lemma TheseMean(
    world: World, setup: Setup, contents: map<Inode, Bytes>, indices: seq<nat>, accepted: seq<Inspected>)
    requires |world.checks| == 8
    ensures MayInstallThese(world, setup, contents, indices, accepted) <==>
      && Validated(world, setup) == PostBuildArtifacts.Accepted(accepted)
      && MayInstall(world, setup, contents, indices)
  {
    ValidatedMeans(world, setup, accepted);
    SmallEnoughMeans(contents, accepted);
    if AreExpectedIn(setup.place, setup.entries) {
      forall k | 0 <= k < 7 ensures StillValid(world.checks[k], setup, accepted) <==>
        HasWorkspace(world.checks[k], setup)
        && HasBuilt(world.checks[k], world.checks[k], world.checks[k], setup, accepted)
      {
        StillValidMeans(world.checks[k], setup, accepted);
      }
    }
  }

  /** Where nothing happens to the file system and every name denotes something, an
      ordinary build may be installed, and nothing else: the workspace as it was created,
      expected artifacts below it, in it nothing but these and their signatures, every one
      a readable regular file of the user and small enough. */
  lemma OrdinaryBuildInstalls(world: World, setup: Setup, contents: map<Inode, Bytes>, indices: seq<nat>)
    requires world.later == world.inspected && world.last == world.inspected && FileSystem.Closed(world.inspected)
    requires |world.checks| == 8 && forall k | 0 <= k < 8 :: world.checks[k] == world.inspected
    ensures MayInstall(world, setup, contents, indices) <==>
      && setup.expectedDirectory == setup.place.directory && AreExpectedIn(setup.place, setup.entries)
      && HasWorkspace(world.inspected, setup)
      && IsOrdinaryBuild(
           world.inspected, setup.place.directory, ExpectedArtifacts.Leaves(setup.entries), setup.effectiveUser)
      && (forall j | 0 <= j < |indices| :: indices[j] < |setup.entries|)
      && (forall accepted | HasBuilt(world.inspected, world.inspected, world.inspected, setup, accepted) ::
            IsSmallEnough(contents, accepted))
  {
    QuietMayInstall(world, setup, contents, indices);
    var fs, leaves := world.inspected, ExpectedArtifacts.Leaves(setup.entries);
    if AreExpectedIn(setup.place, setup.entries) {
      QuietSetAccepts(fs, setup.place.directory, leaves, setup.effectiveUser);
      forall accepted ensures Validated(world, setup) == PostBuildArtifacts.Accepted(accepted) <==>
        && setup.expectedDirectory == setup.place.directory && HasWorkspace(fs, setup)
        && HasBuilt(fs, fs, fs, setup, accepted)
      {
        ValidatedMeans(world, setup, accepted);
      }
      OrdinaryIsValidated(world, setup);
    }
    if Validated(world, setup).Accepted? {
      ValidatedMeans(world, setup, Validated(world, setup).artifacts);
      SmallEnoughMeans(contents, Validated(world, setup).artifacts);
    }
  }

  lemma OrdinaryIsValidated(world: World, setup: Setup)
    requires world.later == world.inspected && world.last == world.inspected && FileSystem.Closed(world.inspected)
    requires AreExpectedIn(setup.place, setup.entries)
    ensures Validated(world, setup).Accepted? <==>
      && setup.expectedDirectory == setup.place.directory && HasWorkspace(world.inspected, setup)
      && IsOrdinaryBuild(
           world.inspected, setup.place.directory, ExpectedArtifacts.Leaves(setup.entries), setup.effectiveUser)
  {
    MatchMeans(setup.place, setup.entries);
    CleanupConditions.InPlaceMeans(
      world.inspected, setup.place.root, setup.place.name, setup.place.directory, setup.place.owner);
    QuietSetAccepts(
      world.inspected, setup.place.directory, ExpectedArtifacts.Leaves(setup.entries), setup.effectiveUser);
  }

  /** The input for one more artifact: its own bytes, then those of its signature. */
  lemma ChosenInOrder(contents: map<Inode, Bytes>, accepted: seq<Inspected>, indices: seq<nat>, j: nat)
    requires AreIndices(indices, |accepted|) && j < |accepted|
    requires accepted[j].artifact.inode in contents
    requires accepted[j].signature.Some? ==> accepted[j].signature.value.inode in contents
    ensures AreIndices(indices + [j], |accepted|)
    ensures Chosen(contents, accepted, indices + [j]) ==
      if accepted[j].signature.None? then
        Chosen(contents, accepted, indices) + contents[accepted[j].artifact.inode]
      else
        Chosen(contents, accepted, indices) + contents[accepted[j].artifact.inode]
        + contents[accepted[j].signature.value.inode]
  {
    assert (indices + [j])[..|indices|] == indices;
    assert contents[accepted[j].artifact.inode] + [] == contents[accepted[j].artifact.inode];
  }

  // ----- the removal at the end -----

  ghost predicate StillHasBuilt(fs: Fs, setup: Setup, accepted: seq<Inspected>) {
    HasWorkspace(fs, setup) && HasBuilt(fs, fs, fs, setup, accepted)
  }

  /** Whether the workspace is removed after an install: only when a last check finds it
      and the artifacts as before, on one device below it and readable; when after the
      scan it still shows the same; and when every name may go. */
  lemma RemovalMeans(world: World, setup: Setup, accepted: seq<Inspected>)
    requires |world.checks| == 8 && AreExpectedIn(setup.place, setup.entries)
    ensures var r, now, after := RemovalOf(world, setup, accepted), world.checks[7], world.afterPreflight;
      var root, leaf, inode, user :=
        setup.place.root, setup.place.name, setup.place.directory, setup.effectiveUser;
      && (r.Some? <==> StillHasBuilt(now, setup, accepted))
      && (r == Some(WorkspaceCleanup.Cleaned) <==>
            && StillHasBuilt(now, setup, accepted) && CleanupConditions.IsOneReadableTree(now, inode)
            && CleanupConditions.IsWorkspaceAt(after, root, leaf, inode, user)
            && CleanupConditions.ShowsTheSame(now, after, inode) && CleanupConditions.IsReadable(after, inode)
            && CleanupConditions.LetsEverythingGo(after, root, leaf, inode))
  {
    StillValidMeans(world.checks[7], setup, accepted);
    CleanupConditions.OutcomeMeans(
      world.checks[7], world.afterPreflight, setup.effectiveUser, setup.place.root, setup.place.name,
      setup.place.directory, setup.place.owner, true, true);
  }

  /** What is left then: every inode, and every name but the workspace's own and those in
      the directories below it. */
  lemma GoneMeans(world: World, setup: Setup, fs: Fs, k: Inode, name: string, c: Inode)
    requires WorkspaceIsGone(world, setup, fs) && k in world.afterPreflight.nodes
    ensures var after := world.afterPreflight;
      && fs.nodes.Keys == after.nodes.Keys && fs.mounts == after.mounts
      && (name in fs.nodes[k].entries && fs.nodes[k].entries[name] == c <==>
            && name in after.nodes[k].entries && after.nodes[k].entries[name] == c
            && !IsBelow(after, setup.place.directory, k) && (k, name) != (setup.place.root, setup.place.name))
  {
    CleanupConditions.WhatIsLeft(
      world.afterPreflight, setup.place.root, setup.place.name, setup.place.directory, k, name, c);
  }
}
