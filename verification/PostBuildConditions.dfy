/**
 What the inspections after the build accept, told from the fields of the file system.
 */
module PostBuildConditions {
  import opened Wrappers
  import opened FileSystem
  import opened FileSystemView
  import opened ExpectedArtifacts
  import opened PostBuildArtifacts
  import CleanupConditions

  /** `name` denotes the inode, a regular file of the owner. */
  ghost predicate IsFile(fs: Fs, dir: Inode, name: string, owner: nat, inode: Inode) {
    Denotes(fs, dir, name, inode) && fs.nodes[inode].kind == Regular && fs.nodes[inode].owner == owner
  }

  ghost predicate IsReadableFile(fs: Fs, dir: Inode, name: string, owner: nat, inode: Inode) {
    IsFile(fs, dir, name, owner, inode) && fs.nodes[inode].readable
  }

  ghost predicate IsReadableDirectory(fs: Fs, dir: Inode) {
    dir in fs.nodes && fs.nodes[dir].kind == Directory && fs.nodes[dir].readable
  }

  /** Nothing in the directory has another name than the artifacts and their signatures. */
  ghost predicate HoldsOnly(fs: Fs, dir: Inode, leaves: seq<string>) {
    IsReadableDirectory(fs, dir)
    && forall name | name in fs.nodes[dir].entries ::
         exists i | 0 <= i < |leaves| :: name == leaves[i] || name == leaves[i] + ".sig"
  }

  /** One artifact with its signature: the same regular file at all three moments, and the
      same signature at all of them or never one. */
  ghost predicate IsBuilt(fs: Fs, later: Fs, last: Fs, dir: Inode, i: Inspected, owners: Owners) {
    && i.artifact.kind == Regular
    && IsReadableFile(fs, dir, i.leaf, owners.artifact, i.artifact.inode)
    && IsFile(later, dir, i.leaf, owners.artifact, i.artifact.inode)
    && IsFile(last, dir, i.leaf, owners.artifact, i.artifact.inode)
    && if i.signature.None? then
         && DenotesNothing(fs, dir, i.leaf + ".sig") && DenotesNothing(later, dir, i.leaf + ".sig")
         && DenotesNothing(last, dir, i.leaf + ".sig")
       else
         && i.signature.value.kind == Regular
         && IsReadableFile(fs, dir, i.leaf + ".sig", owners.signature, i.signature.value.inode)
         && IsFile(later, dir, i.leaf + ".sig", owners.signature, i.signature.value.inode)
         && IsFile(last, dir, i.leaf + ".sig", owners.signature, i.signature.value.inode)
  }

  /** The leaves are different and none is another's signature name. */
  ghost predicate AreSeparate(leaves: seq<string>) {
    && (forall i, j | 0 <= i < j < |leaves| :: leaves[i] != leaves[j])
    && (forall i, j | 0 <= i < |leaves| && 0 <= j < |leaves| :: leaves[i] != leaves[j] + ".sig")
  }

  ghost predicate AreBuilt(
    fs: Fs, later: Fs, last: Fs, dir: Inode, leaves: seq<string>, owners: Owners, artifacts: seq<Inspected>)
  {
    |artifacts| == |leaves|
    && forall i | 0 <= i < |leaves| ::
         artifacts[i].leaf == leaves[i] && IsBuilt(fs, later, last, dir, artifacts[i], owners)
  }

  lemma EntryMeans(fs: Fs, dir: Inode, leaf: string, owner: nat)
    ensures forall id :: InspectEntry(fs, dir, leaf, owner) == Some(id) <==>
      id.kind == Regular && IsReadableFile(fs, dir, leaf, owner, id.inode)
  {
    LookupDenotes(fs, dir, leaf);
  }

  lemma UnchangedMeans(later: Fs, dir: Inode, leaf: string, expected: Identity, owner: nat)
    requires expected.kind == Regular
    ensures EntryIsUnchanged(later, dir, leaf, expected, owner) <==> IsFile(later, dir, leaf, owner, expected.inode)
  {
    LookupDenotes(later, dir, leaf);
  }

  lemma OneMeans(fs: Fs, later: Fs, last: Fs, dir: Inode, leaf: string, owners: Owners, i: Inspected)
    ensures (InspectExpected(fs, dir, leaf, owners) == Some(i)
             && IsUnchanged(later, dir, i, owners) && IsUnchanged(last, dir, i, owners)) <==>
      i.leaf == leaf && IsBuilt(fs, later, last, dir, i, owners)
  {
    EntryMeans(fs, dir, leaf, owners.artifact);
    EntryMeans(fs, dir, leaf + ".sig", owners.signature);
    LookupDenotes(fs, dir, leaf + ".sig");
    LookupDenotes(later, dir, leaf + ".sig");
    LookupDenotes(last, dir, leaf + ".sig");
    if i.artifact.kind == Regular && (i.signature.Some? ==> i.signature.value.kind == Regular) {
      UnchangedMeans(later, dir, i.leaf, i.artifact, owners.artifact);
      UnchangedMeans(last, dir, i.leaf, i.artifact, owners.artifact);
      if i.signature.Some? {
        UnchangedMeans(later, dir, i.leaf + ".sig", i.signature.value, owners.signature);
        UnchangedMeans(last, dir, i.leaf + ".sig", i.signature.value, owners.signature);
      }
    }
  }

  lemma OnlyMeans(fs: Fs, dir: Inode, leaves: seq<string>)
    ensures HasOnlySet(fs, dir, leaves) <==> HoldsOnly(fs, dir, leaves)
  {
    forall name ensures (name in leaves || IsSignatureName(leaves, name)) <==>
      exists i | 0 <= i < |leaves| :: name == leaves[i] || name == leaves[i] + ".sig"
    {
    }
  }

  lemma SeparateMeans(leaves: seq<string>)
    ensures AreDistinct(leaves) && DoNotCollide(leaves) <==> AreSeparate(leaves)
  {
    if AreSeparate(leaves) {
      forall i, j | 0 <= i < |leaves| && 0 <= j < |leaves| ensures leaves[i] != SignatureOf(leaves[j]) {
        assert leaves[i] != leaves[j] + ".sig";
      }
    }
    if DoNotCollide(leaves) {
      forall i, j | 0 <= i < |leaves| && 0 <= j < |leaves| ensures leaves[i] != leaves[j] + ".sig" {
        assert leaves[i] != SignatureOf(leaves[j]);
      }
    }
  }

  lemma AllMean(
    fs: Fs, later: Fs, last: Fs, dir: Inode, leaves: seq<string>, owners: Owners, artifacts: seq<Inspected>)
    ensures (AllInspected(fs, dir, leaves, owners) && AllUnchanged(fs, later, dir, leaves, owners)
             && AllUnchanged(fs, last, dir, leaves, owners) && artifacts == InspectedAll(fs, dir, leaves, owners)) <==>
      AreBuilt(fs, later, last, dir, leaves, owners, artifacts)
  {
    if |artifacts| == |leaves| {
      forall i | 0 <= i < |leaves|
        ensures (InspectExpected(fs, dir, leaves[i], owners) == Some(artifacts[i])
                 && IsUnchanged(later, dir, artifacts[i], owners) && IsUnchanged(last, dir, artifacts[i], owners)) <==>
          artifacts[i].leaf == leaves[i] && IsBuilt(fs, later, last, dir, artifacts[i], owners)
      {
        OneMeans(fs, later, last, dir, leaves[i], owners, artifacts[i]);
      }
    }
    if AreBuilt(fs, later, last, dir, leaves, owners, artifacts) {
      assert forall i | 0 <= i < |leaves| :: InspectExpected(fs, dir, leaves[i], owners) == Some(artifacts[i]);
      assert artifacts == InspectedAll(fs, dir, leaves, owners);
    }
  }

  /** The set inspection accepts exactly these artifacts, for any three file systems. */
  lemma SetAcceptsExactly(
    fs: Fs, later: Fs, last: Fs, dir: Inode, leaves: seq<string>, owners: Owners, artifacts: seq<Inspected>)
    ensures SetInspectionOf(fs, later, last, dir, leaves, owners) == Accepted(artifacts) <==>
      && leaves != [] && AreSeparate(leaves) && HoldsOnly(fs, dir, leaves) && HoldsOnly(later, dir, leaves)
      && AreBuilt(fs, later, last, dir, leaves, owners, artifacts)
  {
    SeparateMeans(leaves);
    OnlyMeans(fs, dir, leaves);
    OnlyMeans(later, dir, leaves);
    AllMean(fs, later, last, dir, leaves, owners, artifacts);
  }

  /** On a quiet file system where every name denotes something: each name is an
      artifact's or its signature's, every artifact is there, and each of these names
      denotes a readable regular file of the owner. */
  ghost predicate IsOrdinaryBuild(fs: Fs, dir: Inode, leaves: seq<string>, owner: nat) {
    && HoldsOnly(fs, dir, leaves)
    && (forall i | 0 <= i < |leaves| :: leaves[i] in fs.nodes[dir].entries)
    && forall name | name in fs.nodes[dir].entries :: exists inode ::
         && Denotes(fs, dir, name, inode) && fs.nodes[inode].kind == Regular
         && fs.nodes[inode].owner == owner && fs.nodes[inode].readable
  }

  lemma EveryNameDenotes(fs: Fs, dir: Inode, name: string)
    requires Closed(fs) && IsReadableDirectory(fs, dir)
    ensures DenotesNothing(fs, dir, name) <==> name !in fs.nodes[dir].entries
  {
    LookupDenotes(fs, dir, name);
  }

  lemma OrdinaryFile(fs: Fs, dir: Inode, name: string, owner: nat, leaves: seq<string>) returns (inode: Inode)
    requires IsOrdinaryBuild(fs, dir, leaves, owner) && name in fs.nodes[dir].entries
    ensures IsReadableFile(fs, dir, name, owner, inode)
  {
    inode :| Denotes(fs, dir, name, inode) && fs.nodes[inode].kind == Regular
      && fs.nodes[inode].owner == owner && fs.nodes[inode].readable;
  }

  lemma OrdinaryArtifact(fs: Fs, dir: Inode, leaves: seq<string>, owner: nat, i: nat) returns (one: Inspected)
    requires Closed(fs) && i < |leaves| && IsOrdinaryBuild(fs, dir, leaves, owner)
    ensures one.leaf == leaves[i] && IsBuilt(fs, fs, fs, dir, one, Owners(owner, owner))
  {
    var inode := OrdinaryFile(fs, dir, leaves[i], owner, leaves);
    EveryNameDenotes(fs, dir, leaves[i] + ".sig");
    if leaves[i] + ".sig" in fs.nodes[dir].entries {
      var signature := OrdinaryFile(fs, dir, leaves[i] + ".sig", owner, leaves);
      one := Inspected(leaves[i], Identity(inode, Regular), Some(Identity(signature, Regular)));
    } else {
      one := Inspected(leaves[i], Identity(inode, Regular), None);
    }
  }

  lemma OrdinaryIsAccepted(fs: Fs, dir: Inode, leaves: seq<string>, owner: nat)
    requires Closed(fs) && leaves != [] && AreSeparate(leaves) && IsOrdinaryBuild(fs, dir, leaves, owner)
    ensures SetInspectionOf(fs, fs, fs, dir, leaves, Owners(owner, owner)).Accepted?
  {
    var owners := Owners(owner, owner);
    forall i | 0 <= i < |leaves|
      ensures InspectExpected(fs, dir, leaves[i], owners).Some?
        && IsUnchanged(fs, dir, InspectExpected(fs, dir, leaves[i], owners).value, owners)
    {
      var one := OrdinaryArtifact(fs, dir, leaves, owner, i);
      OneMeans(fs, fs, fs, dir, leaves[i], owners, one);
    }
    OnlyMeans(fs, dir, leaves);
    SeparateMeans(leaves);
  }

  lemma BuiltNames(fs: Fs, dir: Inode, i: Inspected, owner: nat, name: string)
    requires Closed(fs) && IsReadableDirectory(fs, dir) && IsBuilt(fs, fs, fs, dir, i, Owners(owner, owner))
    requires name in fs.nodes[dir].entries && (name == i.leaf || name == i.leaf + ".sig")
    ensures exists inode ::
      && Denotes(fs, dir, name, inode) && fs.nodes[inode].kind == Regular
      && fs.nodes[inode].owner == owner && fs.nodes[inode].readable
  {
    EveryNameDenotes(fs, dir, name);
    if name == i.leaf {
      assert IsReadableFile(fs, dir, name, owner, i.artifact.inode);
    } else {
      assert IsReadableFile(fs, dir, name, owner, i.signature.value.inode);
    }
  }

  /** What is accepted of a quiet directory, by the set inspection. */
  lemma QuietSetAccepts(fs: Fs, dir: Inode, leaves: seq<string>, owner: nat)
    requires Closed(fs) && leaves != [] && AreSeparate(leaves)
    ensures SetInspectionOf(fs, fs, fs, dir, leaves, Owners(owner, owner)).Accepted? <==>
      IsOrdinaryBuild(fs, dir, leaves, owner)
  {
    var r := SetInspectionOf(fs, fs, fs, dir, leaves, Owners(owner, owner));
    if r.Accepted? {
      SetAcceptsExactly(fs, fs, fs, dir, leaves, Owners(owner, owner), r.artifacts);
      forall name | name in fs.nodes[dir].entries
        ensures exists inode ::
          && Denotes(fs, dir, name, inode) && fs.nodes[inode].kind == Regular
          && fs.nodes[inode].owner == owner && fs.nodes[inode].readable
      {
        var i :| 0 <= i < |leaves| && (name == leaves[i] || name == leaves[i] + ".sig");
        BuiltNames(fs, dir, r.artifacts[i], owner, name);
      }
      forall i | 0 <= i < |leaves| ensures leaves[i] in fs.nodes[dir].entries {
        assert IsBuilt(fs, fs, fs, dir, r.artifacts[i], Owners(owner, owner));
      }
    }
    if IsOrdinaryBuild(fs, dir, leaves, owner) {
      OrdinaryIsAccepted(fs, dir, leaves, owner);
    }
  }

  // ----- the single inspection -----

  /** The signature: nothing at both moments, or a readable file of the owner that is
      still what the name denotes. */
  ghost predicate HasSettledSignature(fs: Fs, later: Fs, dir: Inode, leaf: string, owner: nat) {
    || (DenotesNothing(fs, dir, leaf + ".sig") && DenotesNothing(later, dir, leaf + ".sig"))
    || exists s :: IsReadableFile(fs, dir, leaf + ".sig", owner, s)
         && Denotes(later, dir, leaf + ".sig", s) && later.nodes[s].kind == Regular
  }

  /** The single inspection accepts exactly this file. */
  lemma SingleAcceptsExactly(fs: Fs, later: Fs, dir: Inode, leaf: string, owner: nat, id: Identity)
    ensures SingleInspection(fs, later, dir, leaf, owner) == Some(id) <==>
      && id.kind == Regular && IsReadableFile(fs, dir, leaf, owner, id.inode)
      && Denotes(later, dir, leaf, id.inode) && later.nodes[id.inode].kind == Regular
      && HasSettledSignature(fs, later, dir, leaf, owner)
      && IsReadableDirectory(fs, dir)
      && (forall name | name in fs.nodes[dir].entries ::
            name == leaf || name == leaf + ".sig" || DenotesNothing(fs, dir, name))
  {
    EntryMeans(fs, dir, leaf, owner);
    LookupDenotes(later, dir, leaf);
    OthersMean(fs, dir, leaf);
    SignatureMeans(fs, later, dir, leaf, owner);
  }

  lemma OthersMean(fs: Fs, dir: Inode, leaf: string)
    ensures HasOnlySingle(fs, dir, leaf) <==>
      && IsReadableDirectory(fs, dir)
      && (forall name | name in fs.nodes[dir].entries ::
            name == leaf || name == leaf + ".sig" || DenotesNothing(fs, dir, name))
  {
    if IsReadableDirectory(fs, dir) {
      forall name ensures Lookup(fs, dir, name).None? <==> DenotesNothing(fs, dir, name) {
        LookupDenotes(fs, dir, name);
      }
    }
  }

  lemma SignatureMeans(fs: Fs, later: Fs, dir: Inode, leaf: string, owner: nat)
    ensures (SignatureIsFine(fs, dir, leaf, owner)
             && StatusAt(later, dir, SignatureOf(leaf)) == StatusAt(fs, dir, SignatureOf(leaf))) <==>
      HasSettledSignature(fs, later, dir, leaf, owner)
  {
    EntryMeans(fs, dir, leaf + ".sig", owner);
    LookupDenotes(fs, dir, leaf + ".sig");
    LookupDenotes(later, dir, leaf + ".sig");
    var found := Lookup(fs, dir, leaf + ".sig");
    if found.Some? && InspectEntry(fs, dir, leaf + ".sig", owner).Some? {
      assert IsReadableFile(fs, dir, leaf + ".sig", owner, found.value);
    }
  }

  /** What is accepted of a quiet directory, by the single inspection. */
  lemma QuietSingleAccepts(fs: Fs, dir: Inode, leaf: string, owner: nat)
    requires Closed(fs)
    ensures SingleInspection(fs, fs, dir, leaf, owner).Some? <==> IsOrdinaryBuild(fs, dir, [leaf], owner)
  {
    OneIsSeparate(leaf);
    QuietPipelinesAgree(fs, dir, leaf, owner);
    QuietSetAccepts(fs, dir, [leaf], owner);
  }

  lemma OneIsSeparate(leaf: string)
    ensures AreSeparate([leaf])
  {
    assert |leaf + ".sig"| == |leaf| + 4;
  }

  // ----- the whole validation -----

  /** Each expected artifact is one plain name below the workspace. */
  ghost predicate AreExpectedIn(place: Place, entries: seq<Entry>) {
    && entries != [] && AreSeparate(Leaves(entries))
    && forall i | 0 <= i < |entries| ::
         && |entries[i].leaf| > 0
         && entries[i].path.absolute && !entries[i].path.trailing
         && entries[i].path.components == place.path + [entries[i].leaf]
  }

  lemma MatchMeans(place: Place, entries: seq<Entry>)
    ensures MatchWorkspace(place, entries) <==> AreExpectedIn(place, entries)
  {
    SeparateMeans(Leaves(entries));
    forall i | 0 <= i < |entries|
      ensures (ParentPath(entries[i].path) == Path(true, place.path, false)
               && Filename(entries[i].path) == entries[i].leaf && entries[i].leaf != "") <==>
        && |entries[i].leaf| > 0 && entries[i].path.absolute && !entries[i].path.trailing
        && entries[i].path.components == place.path + [entries[i].leaf]
    {
      PathMeans(place.path, entries[i].path, entries[i].leaf);
    }
  }

  lemma PathMeans(workspace: seq<string>, p: Path, leaf: string)
    ensures ParentPath(p) == Path(true, workspace, false) && Filename(p) == leaf && leaf != "" <==>
      |leaf| > 0 && p.absolute && !p.trailing && p.components == workspace + [leaf]
  {
    var last := |p.components| - 1;
    if p.components != [] {
      assert p.components == p.components[..last] + [p.components[last]];
    }
    if p.components == workspace + [leaf] {
      assert p.components[..last] == workspace;
    }
  }

  /** The set pipeline's validation accepts exactly these artifacts. */
  lemma ValidationAcceptsExactly(
    fs: Fs, later: Fs, last: Fs, effectiveUser: nat, place: Place, expectedDirectory: Inode, entries: seq<Entry>,
    owners: Owners, artifacts: seq<Inspected>)
    ensures Accepted(artifacts)
            == SetValidation(fs, later, last, effectiveUser, place, expectedDirectory, entries, owners) <==>
      && expectedDirectory == place.directory && place.owner == effectiveUser && AreExpectedIn(place, entries)
      && CleanupConditions.IsWorkspaceAt(fs, place.root, place.name, place.directory, place.owner)
      && CleanupConditions.IsWorkspaceAt(last, place.root, place.name, place.directory, place.owner)
      && HoldsOnly(fs, place.directory, Leaves(entries)) && HoldsOnly(later, place.directory, Leaves(entries))
      && AreBuilt(fs, later, last, place.directory, Leaves(entries), owners, artifacts)
  {
    CleanupConditions.InPlaceMeans(fs, place.root, place.name, place.directory, place.owner);
    CleanupConditions.InPlaceMeans(last, place.root, place.name, place.directory, place.owner);
    MatchMeans(place, entries);
    SetAcceptsExactly(fs, later, last, place.directory, Leaves(entries), owners, artifacts);
  }

  /** The single pipeline's validation accepts exactly this artifact. */
  lemma SingleValidationAcceptsExactly(
    fs: Fs, later: Fs, effectiveUser: nat, place: Place, expectedDirectory: Inode, expected: Entry, owner: nat,
    single: SingleArtifact)
    requires expected.leaf != ""
    ensures SingleValidation(fs, later, effectiveUser, place, expectedDirectory, expected, owner) == Some(single) <==>
      && expectedDirectory == place.directory && place.owner == effectiveUser
      && expected.path == Path(true, place.path + [expected.leaf], false)
      && CleanupConditions.IsWorkspaceAt(fs, place.root, place.name, place.directory, place.owner)
      && CleanupConditions.IsWorkspaceAt(later, place.root, place.name, place.directory, place.owner)
      && SingleInspection(fs, later, place.directory, expected.leaf, owner) == Some(single.artifact)
      && single.path == expected.path && single.leaf == expected.leaf
  {
    CleanupConditions.InPlaceMeans(fs, place.root, place.name, place.directory, place.owner);
    CleanupConditions.InPlaceMeans(later, place.root, place.name, place.directory, place.owner);
    PathMeans(place.path, expected.path, expected.leaf);
  }
}
