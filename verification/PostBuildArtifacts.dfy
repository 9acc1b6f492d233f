/**
 The inspection of a workspace after the build: exactly the expected artifacts and
 their signatures, regular and owned, and unchanged while they were looked at.
 There is one pipeline for a single artifact and one for a set.
 */
module PostBuildArtifacts {
  import opened Wrappers
  import opened FileSystem
  import opened ExpectedArtifacts
  import opened Paths

  /** A regular file of `owner`. */
  predicate IsOwnedFile(fs: Fs, inode: Inode, owner: nat) {
    inode in fs.nodes && fs.nodes[inode].kind.Regular? && fs.nodes[inode].owner == owner
  }

  /** A named regular file of `owner` that can be opened. */
  function InspectEntry(fs: Fs, dir: Inode, leaf: string, owner: nat): Option<Identity> {
    var found := Lookup(fs, dir, leaf);
    if found.Some? && IsOwnedFile(fs, found.value, owner) && fs.nodes[found.value].readable then
      Some(Identity(found.value, Regular))
    else None
  }

  // ----- the single pipeline -----

  /** The names the scan of the single pipeline minds: others that are still there. */
  ghost predicate HasOnlySingle(fs: Fs, dir: Inode, leaf: string) {
    && IsDirectory(fs, dir) && fs.nodes[dir].readable
    && forall name | name in fs.nodes[dir].entries ::
      name == leaf || name == SignatureOf(leaf) || Lookup(fs, dir, name).None?
  }

  ghost predicate SignatureIsFine(fs: Fs, dir: Inode, leaf: string, owner: nat) {
    Lookup(fs, dir, SignatureOf(leaf)).Some? ==> InspectEntry(fs, dir, SignatureOf(leaf), owner).Some?
  }

  /** What the single pipeline accepts; `later` is the file system at its end. */
  ghost function SingleInspection(fs: Fs, later: Fs, dir: Inode, leaf: string, owner: nat): Option<Identity> {
    var artifact := InspectEntry(fs, dir, leaf, owner);
    if artifact.Some? && SignatureIsFine(fs, dir, leaf, owner) && HasOnlySingle(fs, dir, leaf)
      && StatusAt(later, dir, leaf) == artifact
      && StatusAt(later, dir, SignatureOf(leaf)) == StatusAt(fs, dir, SignatureOf(leaf)) then artifact
    else None
  }

  method RequireOnlyExpected(fs: Fs, dir: Inode, leaf: string) returns (ok: bool)
    ensures ok <==> HasOnlySingle(fs, dir, leaf)
  {
    if !IsDirectory(fs, dir) || !fs.nodes[dir].readable {
      return false;
    }
    var names := fs.nodes[dir].entries.Keys;
    while names != {}
      invariant names <= fs.nodes[dir].entries.Keys
      invariant forall name | name in fs.nodes[dir].entries && name !in names ::
        name == leaf || name == SignatureOf(leaf) || Lookup(fs, dir, name).None?
      decreases |names|
    {
      var name :| name in names;
      names := names - {name};
      if name == leaf || name == SignatureOf(leaf) {
        continue;
      }
      if Lookup(fs, dir, name).Some? {
        return false;
      }
    }
    ok := true;
  }

  method InspectPostBuildArtifact(fs: Fs, later: Fs, dir: Inode, leaf: string, owner: nat)
    returns (artifact: Option<Identity>)
    ensures artifact == SingleInspection(fs, later, dir, leaf, owner)
  {
    var inspected := InspectEntry(fs, dir, leaf, owner);
    if inspected.None? {
      return None;
    }
    var signature := SignatureOf(leaf);
    var signatureStatus := StatusAt(fs, dir, signature);
    if signatureStatus.Some? {
      var opening := InspectEntry(fs, dir, signature, owner);
      if opening.None? {
        return None;
      }
    }
    var only := RequireOnlyExpected(fs, dir, leaf);
    if !only {
      return None;
    }
    var final := StatusAt(later, dir, leaf);
    if final.None? || final != inspected {
      return None;
    }
    var finalSignature := StatusAt(later, dir, signature);
    if signatureStatus.Some? != finalSignature.Some? || (signatureStatus.Some? && signatureStatus != finalSignature) {
      return None;
    }
    artifact := inspected;
  }

  // ----- the set pipeline -----

  datatype Inspected = Inspected(leaf: string, artifact: Identity, signature: Option<Identity>)

  datatype SetInspection =
    | EmptySet | DuplicatePath | NamespacesCollide | Refused
    | Accepted(artifacts: seq<Inspected>)

  datatype Owners = Owners(artifact: nat, signature: nat)

  /** One artifact of the set with its signature, if there is one. */
  function InspectExpected(fs: Fs, dir: Inode, leaf: string, owners: Owners): Option<Inspected> {
    var artifact := InspectEntry(fs, dir, leaf, owners.artifact);
    if artifact.None? then None
    else if Lookup(fs, dir, SignatureOf(leaf)).None? then Some(Inspected(leaf, artifact.value, None))
    else
      var signature := InspectEntry(fs, dir, SignatureOf(leaf), owners.signature);
      if signature.None? then None else Some(Inspected(leaf, artifact.value, signature))
  }

  /** The retained descriptor and the name still show the inspected file. */
  predicate EntryIsUnchanged(later: Fs, dir: Inode, leaf: string, expected: Identity, owner: nat) {
    && Status(later, expected.inode) == Some(expected) && IsOwnedFile(later, expected.inode, owner)
    && StatusAt(later, dir, leaf) == Some(expected)
  }

  predicate IsUnchanged(later: Fs, dir: Inode, i: Inspected, owners: Owners) {
    && EntryIsUnchanged(later, dir, i.leaf, i.artifact, owners.artifact)
    && i.signature.Some? == StatusAt(later, dir, SignatureOf(i.leaf)).Some?
    && (i.signature.Some? ==>
          EntryIsUnchanged(later, dir, SignatureOf(i.leaf), i.signature.value, owners.signature))
  }

  ghost predicate HasOnlySet(fs: Fs, dir: Inode, leaves: seq<string>) {
    && IsDirectory(fs, dir) && fs.nodes[dir].readable
    && forall name | name in fs.nodes[dir].entries :: name in leaves || IsSignatureName(leaves, name)
  }

  predicate IsSignatureName(leaves: seq<string>, name: string) {
    exists i | 0 <= i < |leaves| :: name == SignatureOf(leaves[i])
  }

  ghost predicate AllInspected(fs: Fs, dir: Inode, leaves: seq<string>, owners: Owners) {
    forall i | 0 <= i < |leaves| :: InspectExpected(fs, dir, leaves[i], owners).Some?
  }

  ghost predicate AllUnchanged(fs: Fs, later: Fs, dir: Inode, leaves: seq<string>, owners: Owners) {
    forall i | 0 <= i < |leaves| :: InspectExpected(fs, dir, leaves[i], owners).Some?
      && IsUnchanged(later, dir, InspectExpected(fs, dir, leaves[i], owners).value, owners)
  }

  ghost function InspectedAll(fs: Fs, dir: Inode, leaves: seq<string>, owners: Owners): (r: seq<Inspected>)
    requires AllInspected(fs, dir, leaves, owners)
    ensures |r| == |leaves|
  {
    seq(|leaves|, i requires 0 <= i < |leaves| && InspectExpected(fs, dir, leaves[i], owners).Some? =>
      InspectExpected(fs, dir, leaves[i], owners).value)
  }

  /** What the set pipeline comes to.  `later` is the file system once every entry has
      been inspected and the directory scanned for the first time, `last` the one
      after the second scan. */
  ghost function SetInspectionOf(
    fs: Fs, later: Fs, last: Fs, dir: Inode, leaves: seq<string>, owners: Owners): SetInspection
  {
    if leaves == [] then EmptySet
    else if !AreDistinct(leaves) then DuplicatePath
    else if !DoNotCollide(leaves) then NamespacesCollide
    else if AllInspected(fs, dir, leaves, owners) && HasOnlySet(fs, dir, leaves)
      && AllUnchanged(fs, later, dir, leaves, owners) && HasOnlySet(later, dir, leaves)
      && AllUnchanged(fs, last, dir, leaves, owners)
    then Accepted(InspectedAll(fs, dir, leaves, owners))
    else Refused
  }

  method RequireOnlyExpectedSet(fs: Fs, dir: Inode, leaves: seq<string>) returns (ok: bool)
    ensures ok <==> HasOnlySet(fs, dir, leaves)
  {
    if !IsDirectory(fs, dir) || !fs.nodes[dir].readable {
      return false;
    }
    var names := fs.nodes[dir].entries.Keys;
    while names != {}
      invariant names <= fs.nodes[dir].entries.Keys
      invariant forall name | name in fs.nodes[dir].entries && name !in names ::
        name in leaves || IsSignatureName(leaves, name)
      decreases |names|
    {
      var name :| name in names;
      names := names - {name};
      if name in leaves || IsSignatureName(leaves, name) {
        continue;
      }
      return false;
    }
    ok := true;
  }

  method InspectEach(fs: Fs, dir: Inode, leaves: seq<string>, owners: Owners) returns (r: Option<seq<Inspected>>)
    ensures r.Some? <==> AllInspected(fs, dir, leaves, owners)
    ensures r.Some? ==> r.value == InspectedAll(fs, dir, leaves, owners)
  {
    var inspected: seq<Inspected> := [];
    for i := 0 to |leaves|
      invariant |inspected| == i
      invariant forall k | 0 <= k < i :: InspectExpected(fs, dir, leaves[k], owners) == Some(inspected[k])
    {
      var one := InspectExpected(fs, dir, leaves[i], owners);
      if one.None? {
        return None;
      }
      inspected := inspected + [one.value];
    }
    assert AllInspected(fs, dir, leaves, owners);
    assert inspected == InspectedAll(fs, dir, leaves, owners);
    r := Some(inspected);
  }

  method RequireUnchanged(later: Fs, dir: Inode, inspected: seq<Inspected>, owners: Owners) returns (ok: bool)
    ensures ok <==> forall i | 0 <= i < |inspected| :: IsUnchanged(later, dir, inspected[i], owners)
  {
    for i := 0 to |inspected|
      invariant forall k | 0 <= k < i :: IsUnchanged(later, dir, inspected[k], owners)
    {
      if !IsUnchanged(later, dir, inspected[i], owners) {
        return false;
      }
    }
    ok := true;
  }

  /** The names of a set: no repetition, and none another's signature. */
  method CheckNames(leaves: seq<string>) returns (isDistinct: bool, isSeparate: bool)
    ensures isDistinct <==> AreDistinct(leaves)
    ensures isDistinct ==> (isSeparate <==> DoNotCollide(leaves))
  {
    var artifacts: set<string>, signatures: set<string> := {}, {};
    for i := 0 to |leaves|
      invariant forall j, k | 0 <= j < k < i :: leaves[j] != leaves[k]
      invariant forall leaf :: leaf in artifacts <==> leaf in leaves[..i]
      invariant forall name :: name in signatures <==> IsSignatureName(leaves[..i], name)
    {
      if leaves[i] in artifacts {
        return false, false;
      }
      artifacts := artifacts + {leaves[i]};
      signatures := signatures + {SignatureOf(leaves[i])};
      SignatureNamesGrow(leaves, i);
    }
    assert leaves[..|leaves|] == leaves;
    isDistinct := true;
    isSeparate := forall name | name in signatures :: name !in artifacts;
    if isSeparate {
      forall i, j | 0 <= i < |leaves| && 0 <= j < |leaves| ensures leaves[i] != SignatureOf(leaves[j]) {
        assert IsSignatureName(leaves, SignatureOf(leaves[j]));
      }
    }
  }

  lemma SignatureNamesGrow(leaves: seq<string>, i: nat)
    requires i < |leaves|
    ensures leaves[..i + 1] == leaves[..i] + [leaves[i]]
    ensures forall name :: IsSignatureName(leaves[..i + 1], name) <==>
      IsSignatureName(leaves[..i], name) || name == SignatureOf(leaves[i])
  {
    var before, more := leaves[..i], leaves[..i + 1];
    forall name | IsSignatureName(before, name) || name == SignatureOf(leaves[i]) ensures IsSignatureName(more, name) {
      if IsSignatureName(before, name) {
        var k :| 0 <= k < |before| && name == SignatureOf(before[k]);
        assert more[k] == before[k];
      } else {
        assert more[i] == leaves[i];
      }
    }
  }

  method InspectPostBuildArtifactSet(fs: Fs, later: Fs, last: Fs, dir: Inode, leaves: seq<string>, owners: Owners)
    returns (r: SetInspection)
    ensures r == SetInspectionOf(fs, later, last, dir, leaves, owners)
  {
    if leaves == [] {
      return EmptySet;
    }
    var isDistinct, isSeparate := CheckNames(leaves);
    if !isDistinct {
      return DuplicatePath;
    }
    if !isSeparate {
      return NamespacesCollide;
    }
    var inspected := InspectEach(fs, dir, leaves, owners);
    if inspected.None? {
      return Refused;
    }
    var only := RequireOnlyExpectedSet(fs, dir, leaves);
    if !only {
      return Refused;
    }
    var same := RequireUnchanged(later, dir, inspected.value, owners);
    AllUnchangedMeans(fs, later, dir, leaves, owners);
    if !same {
      return Refused;
    }
    only := RequireOnlyExpectedSet(later, dir, leaves);
    if !only {
      return Refused;
    }
    same := RequireUnchanged(last, dir, inspected.value, owners);
    AllUnchangedMeans(fs, last, dir, leaves, owners);
    r := if same then Accepted(inspected.value) else Refused;
  }

  lemma AllUnchangedMeans(fs: Fs, later: Fs, dir: Inode, leaves: seq<string>, owners: Owners)
    requires AllInspected(fs, dir, leaves, owners)
    ensures var all := InspectedAll(fs, dir, leaves, owners);
      AllUnchanged(fs, later, dir, leaves, owners) <==>
        forall i | 0 <= i < |all| :: IsUnchanged(later, dir, all[i], owners)
  {
    var all := InspectedAll(fs, dir, leaves, owners);
    assert forall i | 0 <= i < |leaves| :: InspectExpected(fs, dir, leaves[i], owners) == Some(all[i]);
  }

  // ----- the whole validation of a set -----

  /** What `require_matching_workspace` asks of the entries. */
  predicate MatchWorkspace(place: Place, entries: seq<Entry>) {
    && entries != []
    && (forall i | 0 <= i < |entries| ::
          && ParentPath(entries[i].path) == Path(true, place.path, false)
          && Filename(entries[i].path) == entries[i].leaf && entries[i].leaf != "")
    && AreDistinct(Leaves(entries)) && DoNotCollide(Leaves(entries))
  }

  method ValidateSet(
    fs: Fs, later: Fs, last: Fs, effectiveUser: nat, place: Place, expectedDirectory: Inode, entries: seq<Entry>,
    owners: Owners)
    returns (r: SetInspection)
    ensures r.Accepted? || r.Refused?
    ensures r == SetValidation(fs, later, last, effectiveUser, place, expectedDirectory, entries, owners)
  {
    if !IsInPlace(fs, effectiveUser, place) || expectedDirectory != place.directory || !MatchWorkspace(place, entries) {
      return Refused;
    }
    r := InspectPostBuildArtifactSet(fs, later, last, place.directory, Leaves(entries), owners);
    if !IsInPlace(last, effectiveUser, place) {
      return Refused;
    }
  }

  /** An accepted packagelist meets every later condition on names. */
  lemma AcceptedSetMatches(place: Place, entries: seq<Entry>)
    requires IsSoundSet(place, entries)
    ensures MatchWorkspace(place, entries)
  {
    forall i | 0 <= i < |entries|
      ensures ParentPath(entries[i].path) == Path(true, place.path, false)
      ensures Filename(entries[i].path) == entries[i].leaf
    {
      var components := place.path + [entries[i].leaf];
      assert components[..|components| - 1] == place.path;
    }
  }

  // ----- the whole validation of a single artifact -----

  /** A validated artifact: where it was expected and the file that is there. */
  datatype SingleArtifact = SingleArtifact(path: Path, leaf: string, artifact: Identity)

  predicate BelongsTo(place: Place, expected: Entry) {
    ParentPath(expected.path) == Path(true, place.path, false) && Filename(expected.path) == expected.leaf
  }

  /** What the single pipeline's validation comes to; `later` is the file system once
      the artifact has been inspected. */
  ghost function SingleValidation(
    fs: Fs, later: Fs, effectiveUser: nat, place: Place, expectedDirectory: Inode, expected: Entry, owner: nat)
    : Option<SingleArtifact>
  {
    if expectedDirectory == place.directory && BelongsTo(place, expected)
      && IsInPlace(fs, effectiveUser, place) && IsInPlace(later, effectiveUser, place) then
      var inspected := SingleInspection(fs, later, place.directory, expected.leaf, owner);
      if inspected.None? then None else Some(SingleArtifact(expected.path, expected.leaf, inspected.value))
    else None
  }

  method ValidateSingle(
    fs: Fs, later: Fs, effectiveUser: nat, place: Place, expectedDirectory: Inode, expected: Entry, owner: nat)
    returns (r: Option<SingleArtifact>)
    ensures r == SingleValidation(fs, later, effectiveUser, place, expectedDirectory, expected, owner)
  {
    if !IsInPlace(fs, effectiveUser, place) {
      return None;
    }
    if expectedDirectory != place.directory || ParentPath(expected.path) != Path(true, place.path, false)
      || Filename(expected.path) != expected.leaf {
      return None;
    }
    var inspected := InspectPostBuildArtifact(fs, later, place.directory, expected.leaf, owner);
    if inspected.None? || !IsInPlace(later, effectiveUser, place) {
      return None;
    }
    r := Some(SingleArtifact(expected.path, expected.leaf, inspected.value));
  }

  /** What `ValidateSet` comes to. */
  ghost function SetValidation(
    fs: Fs, later: Fs, last: Fs, effectiveUser: nat, place: Place, expectedDirectory: Inode, entries: seq<Entry>,
    owners: Owners): SetInspection
  {
    if expectedDirectory == place.directory && IsInPlace(fs, effectiveUser, place)
      && IsInPlace(last, effectiveUser, place) && MatchWorkspace(place, entries) then
      SetInspectionOf(fs, later, last, place.directory, Leaves(entries), owners)
    else Refused
  }

  // ----- both pipelines -----

  lemma OneLeaf(leaf: string)
    ensures AreDistinct([leaf]) && DoNotCollide([leaf])
    ensures forall name :: IsSignatureName([leaf], name) <==> name == SignatureOf(leaf)
  {
    SuffixDiffers(leaf);
    assert [leaf][0] == leaf;
  }

  /** Whatever happens to the files meanwhile, what the set pipeline accepts for one
      entry the single pipeline accepts too. */
  lemma SetImpliesSingle(fs: Fs, later: Fs, last: Fs, dir: Inode, leaf: string, owner: nat)
    requires SetInspectionOf(fs, later, last, dir, [leaf], Owners(owner, owner)).Accepted?
    ensures SingleInspection(fs, last, dir, leaf, owner)
      == Some(SetInspectionOf(fs, later, last, dir, [leaf], Owners(owner, owner)).artifacts[0].artifact)
  {
    OneLeaf(leaf);
    var owners := Owners(owner, owner);
    assert [leaf][0] == leaf;
    assert InspectExpected(fs, dir, [leaf][0], owners).Some?;
    assert IsUnchanged(last, dir, InspectExpected(fs, dir, [leaf][0], owners).value, owners);
  }

  /** On a quiet file system both accept the same directories. */
  lemma QuietPipelinesAgree(fs: Fs, dir: Inode, leaf: string, owner: nat)
    requires Closed(fs)
    ensures SingleInspection(fs, fs, dir, leaf, owner).Some? <==>
      SetInspectionOf(fs, fs, fs, dir, [leaf], Owners(owner, owner)).Accepted?
  {
    OneLeaf(leaf);
    var owners := Owners(owner, owner);
    if SingleInspection(fs, fs, dir, leaf, owner).Some? {
      forall name | name in fs.nodes[dir].entries ensures name in [leaf] || IsSignatureName([leaf], name) {
        assert Lookup(fs, dir, name).Some?;
      }
      var one := InspectExpected(fs, dir, leaf, owners);
      assert one.Some? && IsUnchanged(fs, dir, one.value, owners);
      assert forall i | 0 <= i < |[leaf]| :: [leaf][i] == leaf;
      assert AllUnchanged(fs, fs, dir, [leaf], owners);
    } else if SetInspectionOf(fs, fs, fs, dir, [leaf], owners).Accepted? {
      SetImpliesSingle(fs, fs, fs, dir, leaf, owner);
    }
  }

  // ----- from the packagelist to the validated artifact -----

  /** The file systems a run meets: when the packagelist is validated and once that is
      over, and after the build at the three points of the inspection. */
  datatype Build = Build(listed: Fs, expected: Fs, built: Fs, later: Fs, last: Fs)

  /** The single pipeline on a packagelist's text. */
  ghost function SingleRun(b: Build, effectiveUser: nat, place: Place, raw: string): Option<SingleArtifact> {
    var entry := ExpectedArtifact(b.listed, b.expected, effectiveUser, place, raw);
    if entry.None? then None
    else SingleValidation(b.built, b.last, effectiveUser, place, place.directory, entry.value, effectiveUser)
  }

  /** The set pipeline on the same text: each artifact with the path it was expected at. */
  ghost function SetRun(b: Build, effectiveUser: nat, place: Place, raw: string): Option<seq<(Path, Inspected)>> {
    var entries := ExpectedArtifactSet(b.listed, b.expected, effectiveUser, place, raw);
    if entries.None? then None
    else
      var owners := Owners(effectiveUser, effectiveUser);
      var r := SetValidation(
        b.built, b.later, b.last, effectiveUser, place, place.directory, entries.value, owners);
      if !r.Accepted? then None
      else
        AcceptedPerEntry(b, effectiveUser, place, entries.value, owners);
        Some(seq(|r.artifacts|, i requires 0 <= i < |r.artifacts| => (entries.value[i].path, r.artifacts[i])))
  }

  lemma AcceptedPerEntry(b: Build, effectiveUser: nat, place: Place, entries: seq<Entry>, owners: Owners)
    ensures var r := SetValidation(b.built, b.later, b.last, effectiveUser, place, place.directory, entries, owners);
      r.Accepted? ==> |r.artifacts| == |entries|
  {
  }

  /** What both pipelines know of one artifact. */
  ghost predicate SameArtifact(single: SingleArtifact, one: (Path, Inspected)) {
    single.path == one.0 && single.leaf == one.1.leaf && single.artifact == one.1.artifact
  }

  lemma OneEntryMatches(place: Place, entry: Entry)
    requires AreComponents(place.path) && IsSoundSet(place, [entry])
    ensures MatchWorkspace(place, [entry]) && BelongsTo(place, entry) && Leaves([entry]) == [entry.leaf]
  {
    AcceptedSetMatches(place, [entry]);
    assert [entry][0] == entry;
  }

  /** The two validations of one expected artifact. */
  lemma OneValidation(b: Build, effectiveUser: nat, place: Place, entry: Entry)
    requires AreComponents(place.path) && IsSoundSet(place, [entry])
    ensures var single := SingleValidation(
              b.built, b.last, effectiveUser, place, place.directory, entry, effectiveUser);
            var r := SetValidation(
              b.built, b.later, b.last, effectiveUser, place, place.directory, [entry],
              Owners(effectiveUser, effectiveUser));
      && (r.Accepted? ==>
            && single.Some? && |r.artifacts| == 1 && SameArtifact(single.value, (entry.path, r.artifacts[0])))
      && (Closed(b.built) && b.later == b.built && b.last == b.built ==> (single.Some? <==> r.Accepted?))
  {
    OneEntryMatches(place, entry);
    var dir, owners := place.directory, Owners(effectiveUser, effectiveUser);
    if SetInspectionOf(b.built, b.later, b.last, dir, [entry.leaf], owners).Accepted? {
      SetImpliesSingle(b.built, b.later, b.last, dir, entry.leaf, effectiveUser);
      assert InspectExpected(b.built, dir, [entry.leaf][0], owners).Some?;
    }
    if Closed(b.built) {
      QuietPipelinesAgree(b.built, dir, entry.leaf, effectiveUser);
    }
  }

  /** From the text of a packagelist to the validated artifact: whatever happens to the
      files meanwhile, a set of one is also accepted by the single pipeline, with the
      same path and the same file; and when nothing changes after the build, the single
      pipeline accepts nothing else. */
  lemma RunsAgree(b: Build, effectiveUser: nat, place: Place, raw: string)
    requires AreComponents(place.path)
    ensures var single, several := SingleRun(b, effectiveUser, place, raw), SetRun(b, effectiveUser, place, raw);
      && (several.Some? && |several.value| == 1 ==> single.Some? && SameArtifact(single.value, several.value[0]))
      && (Closed(b.built) && b.later == b.built && b.last == b.built ==>
            (single.Some? <==> several.Some? && |several.value| == 1))
  {
    var records := PackagelistRecords(raw);
    if records.Some? && |records.value| == 1 {
      SingleRecordAgrees(b.listed, b.expected, effectiveUser, place, raw);
      var entry := ExpectedArtifact(b.listed, b.expected, effectiveUser, place, raw);
      if entry.Some? {
        AcceptedSetIsSound(b.listed, b.expected, effectiveUser, place, raw);
        OneValidation(b, effectiveUser, place, entry.value);
      }
    } else {
      NotOneRecord(b, effectiveUser, place, raw);
    }
  }

  lemma NotOneRecord(b: Build, effectiveUser: nat, place: Place, raw: string)
    requires PackagelistRecords(raw).Some? ==> |PackagelistRecords(raw).value| != 1
    ensures SingleRun(b, effectiveUser, place, raw).None?
    ensures var several := SetRun(b, effectiveUser, place, raw); several.Some? ==> |several.value| != 1
  {
  }
}
