/**
 Removal of the files an install manifest lists.  Every entry is inspected, every
 one is verified again before the first file goes, and each once more just before
 its own turn.
 */
module ManifestUninstall {
  import opened Wrappers
  import opened FileSystem
  import opened InstallManifest
  import opened Paths
  import TextLists

  /** What `same_identity` compares. */
  datatype FullIdentity = FullIdentity(inode: Inode, kind: Kind, mode: nat, owner: nat, group: nat)

  datatype OpenedDirectory = Opened(inode: Inode) | Absent | NotADirectory | Denied
  datatype Child = ChildRefused | ChildMissing | Child(inode: Inode, via: seq<FullIdentity>)
  datatype ParentResult = ParentRefused | ParentMissing | Parent(inode: Inode, ancestors: seq<FullIdentity>)

  /** The user, the directory the manifest's paths start from and whether that is
      the live root. */
  datatype Setting = Setting(effectiveUser: nat, trustedRoot: Inode, isLive: bool)

  datatype Found = Found(parent: Inode, ancestors: seq<FullIdentity>, identity: FullIdentity)
  datatype Candidate = Candidate(entry: ParsedPath, depth: nat, found: Option<Found>)

  function IdentityOf(fs: Fs, inode: Inode): FullIdentity
    requires inode in fs.nodes
  {
    var node := fs.nodes[inode];
    FullIdentity(inode, node.kind, node.mode, node.owner, node.group)
  }

  predicate OthersMayWrite(mode: nat) {
    (mode / 0x10) % 2 == 1 || (mode / 2) % 2 == 1
  }

  predicate IsSticky(mode: nat) {
    (mode / 0x200) % 2 == 1
  }

  predicate IsSafeAncestor(fs: Fs, effectiveUser: nat, dir: Inode, allowSticky: bool) {
    && IsDirectory(fs, dir)
    && (fs.nodes[dir].owner == 0 || fs.nodes[dir].owner == effectiveUser)
    && (OthersMayWrite(fs.nodes[dir].mode) ==> allowSticky && IsSticky(fs.nodes[dir].mode))
  }

  /** Opening a directory for reading without following a symlink. */
  function OpenDirectoryAt(fs: Fs, dir: Inode, name: string): OpenedDirectory {
    var found := Lookup(fs, dir, name);
    if found.None? then Absent
    else if !fs.nodes[found.value].kind.Directory? then NotADirectory
    else if !fs.nodes[found.value].readable then Denied
    else Opened(found.value)
  }

  // ----- the parent of an entry -----

  const ALIAS: seq<string> := ["usr", "local", "share", "man"]
  const ALIAS_TARGET: seq<string> := ["usr", "local", "man"]

  predicate IsAliasName(components: seq<string>, index: nat) {
    index == 3 && ALIAS <= components
  }

  /** `share/man` is the one symlink that stands for the `man` next to `share`. */
  predicate IsAlias(fs: Fs, effectiveUser: nat, share: Inode) {
    var link := Lookup(fs, share, "man");
    && link.Some? && fs.nodes[link.value].kind.Symlink?
    && fs.nodes[link.value].owner == effectiveUser && fs.nodes[link.value].target == "../man"
  }

  function EnterAlias(fs: Fs, effectiveUser: nat, local: Inode, share: Inode): Child {
    if !IsAlias(fs, effectiveUser, share) then ChildRefused
    else
      var link := IdentityOf(fs, Lookup(fs, share, "man").value);
      match OpenDirectoryAt(fs, local, "man")
      case Absent => ChildMissing
      case Opened(inode) => Child(inode, [link])
      case _ => ChildRefused
  }

  function EnterChild(fs: Fs, effectiveUser: nat, directories: seq<Inode>, components: seq<string>, index: nat): Child
    requires index < |directories| && index < |components|
  {
    match OpenDirectoryAt(fs, directories[index], components[index])
    case Opened(inode) => Child(inode, [])
    case Absent => ChildMissing
    case Denied => ChildRefused
    case NotADirectory =>
      if IsAliasName(components, index) then EnterAlias(fs, effectiveUser, directories[2], directories[3])
      else ChildRefused
  }

  function ParentFrom(
    fs: Fs, setting: Setting, components: seq<string>, depth: nat, directories: seq<Inode>,
    ancestors: seq<FullIdentity>)
    : ParentResult
    requires 0 < |directories| <= |components|
    decreases |components| - |directories|
  {
    var index := |directories| - 1;
    if index + 1 == |components| then Parent(directories[index], ancestors)
    else
      match EnterChild(fs, setting.effectiveUser, directories, components, index)
      case ChildRefused => ParentRefused
      case ChildMissing => ParentMissing
      case Child(inode, via) =>
        if !IsSafeAncestor(fs, setting.effectiveUser, inode, setting.isLive && index + 1 < depth) then ParentRefused
        else
          ParentFrom(
            fs, setting, components, depth, directories + [inode], ancestors + via + [IdentityOf(fs, inode)])
  }

  function ParentOf(fs: Fs, setting: Setting, components: seq<string>, depth: nat): ParentResult
    requires components != []
  {
    var root := setting.trustedRoot;
    if !IsSafeAncestor(fs, setting.effectiveUser, root, false) || !fs.nodes[root].readable then ParentRefused
    else ParentFrom(fs, setting, components, depth, [root], [IdentityOf(fs, root)])
  }

  method OpenCandidateParent(fs: Fs, setting: Setting, components: seq<string>, depth: nat)
    returns (parent: ParentResult)
    requires components != []
    ensures parent == ParentOf(fs, setting, components, depth)
  {
    var root := setting.trustedRoot;
    if !IsSafeAncestor(fs, setting.effectiveUser, root, false) || !fs.nodes[root].readable {
      return ParentRefused;
    }
    var directories, ancestors := [root], [IdentityOf(fs, root)];
    for index := 0 to |components| - 1
      invariant |directories| == index + 1
      invariant ParentOf(fs, setting, components, depth)
        == ParentFrom(fs, setting, components, depth, directories, ancestors)
    {
      var child := EnterChild(fs, setting.effectiveUser, directories, components, index);
      if child.ChildMissing? {
        return ParentMissing;
      }
      if child.ChildRefused?
        || !IsSafeAncestor(fs, setting.effectiveUser, child.inode, setting.isLive && index + 1 < depth) {
        return ParentRefused;
      }
      directories := directories + [child.inode];
      ancestors := ancestors + child.via + [IdentityOf(fs, child.inode)];
    }
    parent := Parent(directories[|components| - 1], ancestors);
  }

  // ----- where the parent is -----

  /** The path as it is spelled, or with the one alias replaced. */
  ghost predicate LeadsTo(fs: Fs, root: Inode, path: seq<string>, dir: Inode) {
    || Walk(fs, root, path) == Some(Identity(dir, Directory))
    || (ALIAS <= path && Walk(fs, root, ALIAS_TARGET + path[4..]) == Some(Identity(dir, Directory)))
  }

  lemma {:induction false} WalkMore(fs: Fs, dir: Inode, path: seq<string>, inner: Inode, name: string)
    requires Walk(fs, dir, path) == Some(Identity(inner, Directory))
    ensures Walk(fs, dir, path + [name]) == StatusAt(fs, inner, name)
    decreases |path|
  {
    if path == [] {
      WalkName(fs, dir, name);
      assert [] + [name] == [name];
    } else {
      var next := Lookup(fs, dir, path[0]).value;
      WalkMore(fs, next, path[1..], inner, name);
      assert (path + [name])[1..] == path[1..] + [name];
    }
  }

  lemma LeadsFurther(fs: Fs, root: Inode, path: seq<string>, dir: Inode, name: string, inner: Inode)
    requires LeadsTo(fs, root, path, dir) && OpenDirectoryAt(fs, dir, name) == Opened(inner)
    ensures LeadsTo(fs, root, path + [name], inner)
  {
    if Walk(fs, root, path) == Some(Identity(dir, Directory)) {
      WalkMore(fs, root, path, dir, name);
    } else {
      WalkMore(fs, root, ALIAS_TARGET + path[4..], dir, name);
      assert ALIAS_TARGET + path[4..] + [name] == ALIAS_TARGET + (path + [name])[4..];
    }
  }

  /** Every directory so far is where its part of the path leads. */
  ghost predicate IsTrail(fs: Fs, root: Inode, components: seq<string>, directories: seq<Inode>) {
    && 0 < |directories| <= |components|
    && (forall k | 0 <= k < |directories| :: LeadsTo(fs, root, components[..k], directories[k]))
    && (|directories| > 2 ==> Walk(fs, root, components[..2]) == Some(Identity(directories[2], Directory)))
  }

  lemma PlainStep(
    fs: Fs, root: Inode, components: seq<string>, directories: seq<Inode>, index: nat, child: Inode)
    requires IsTrail(fs, root, components, directories) && index == |directories| - 1 < |components|
    requires OpenDirectoryAt(fs, directories[index], components[index]) == Opened(child)
    ensures LeadsTo(fs, root, components[..index + 1], child)
  {
    assert components[..index + 1] == components[..index] + [components[index]];
    LeadsFurther(fs, root, components[..index], directories[index], components[index], child);
  }

  /** The alias leads to the `man` next to `share`. */
  lemma AliasStepLeads(fs: Fs, root: Inode, components: seq<string>, directories: seq<Inode>, child: Inode)
    requires IsTrail(fs, root, components, directories) && |directories| == 4 && ALIAS <= components
    requires OpenDirectoryAt(fs, directories[2], "man") == Opened(child)
    ensures LeadsTo(fs, root, components[..4], child)
  {
    WalkMore(fs, root, components[..2], directories[2], "man");
    assert components[..4] == ALIAS && components[..4][4..] == [];
    assert components[..2] + ["man"] == ALIAS_TARGET + components[..4][4..];
  }

  lemma TrailGrows(fs: Fs, effectiveUser: nat, root: Inode, components: seq<string>, directories: seq<Inode>)
    requires IsTrail(fs, root, components, directories) && |directories| < |components|
    requires EnterChild(fs, effectiveUser, directories, components, |directories| - 1).Child?
    ensures var child := EnterChild(fs, effectiveUser, directories, components, |directories| - 1);
      IsTrail(fs, root, components, directories + [child.inode])
  {
    var index := |directories| - 1;
    var child := EnterChild(fs, effectiveUser, directories, components, index).inode;
    if OpenDirectoryAt(fs, directories[index], components[index]).Opened? {
      PlainStep(fs, root, components, directories, index, child);
    } else {
      AliasStepLeads(fs, root, components, directories, child);
    }
    if index == 1 {
      NoAliasYet(fs, root, components[..2], child);
    }
  }

  lemma NoAliasYet(fs: Fs, root: Inode, path: seq<string>, dir: Inode)
    requires LeadsTo(fs, root, path, dir) && !(ALIAS <= path)
    ensures Walk(fs, root, path) == Some(Identity(dir, Directory))
  {
  }

  /** Every directory on the way belongs to root or the user and is closed to others,
      except that on the live root one above the install root may be sticky. */
  ghost predicate IsSafeWay(fs: Fs, setting: Setting, depth: nat, way: seq<Inode>) {
    forall k | 0 <= k < |way| :: IsSafeAncestor(fs, setting.effectiveUser, way[k], setting.isLive && 0 < k < depth)
  }

  ghost predicate EndsAt(fs: Fs, ancestors: seq<FullIdentity>, way: seq<Inode>) {
    && ancestors != [] && way != [] && way[|way| - 1] in fs.nodes
    && ancestors[|ancestors| - 1] == IdentityOf(fs, way[|way| - 1])
  }

  /** The directories opened so far, with the ancestors recorded for them. */
  ghost predicate IsOnTheWay(
    fs: Fs, setting: Setting, components: seq<string>, depth: nat, directories: seq<Inode>,
    ancestors: seq<FullIdentity>)
  {
    && IsTrail(fs, setting.trustedRoot, components, directories) && IsSafeWay(fs, setting, depth, directories)
    && EndsAt(fs, ancestors, directories)
  }

  lemma WayGrows(
    fs: Fs, setting: Setting, components: seq<string>, depth: nat, directories: seq<Inode>,
    ancestors: seq<FullIdentity>, child: Child)
    requires IsOnTheWay(fs, setting, components, depth, directories, ancestors) && |directories| < |components|
    requires child == EnterChild(fs, setting.effectiveUser, directories, components, |directories| - 1) && child.Child?
    requires IsSafeAncestor(fs, setting.effectiveUser, child.inode, setting.isLive && |directories| < depth)
    ensures IsOnTheWay(
      fs, setting, components, depth, directories + [child.inode],
      ancestors + child.via + [IdentityOf(fs, child.inode)])
  {
    TrailGrows(fs, setting.effectiveUser, setting.trustedRoot, components, directories);
  }

  /** The walk continues from these directories to the parent. */
  ghost predicate GoesOnTo(
    fs: Fs, setting: Setting, components: seq<string>, depth: nat, directories: seq<Inode>,
    ancestors: seq<FullIdentity>, parent: ParentResult)
  {
    0 < |directories| <= |components| && parent.Parent?
    && ParentFrom(fs, setting, components, depth, directories, ancestors) == parent
  }

  lemma GoesOn(
    fs: Fs, setting: Setting, components: seq<string>, depth: nat, directories: seq<Inode>,
    ancestors: seq<FullIdentity>, parent: ParentResult)
    returns (child: Child)
    requires GoesOnTo(fs, setting, components, depth, directories, ancestors, parent)
    requires |directories| < |components|
    ensures child == EnterChild(fs, setting.effectiveUser, directories, components, |directories| - 1) && child.Child?
    ensures IsSafeAncestor(fs, setting.effectiveUser, child.inode, setting.isLive && |directories| < depth)
    ensures GoesOnTo(
      fs, setting, components, depth, directories + [child.inode],
      ancestors + child.via + [IdentityOf(fs, child.inode)], parent)
  {
    child := EnterChild(fs, setting.effectiveUser, directories, components, |directories| - 1);
  }

  lemma GoesNoFurther(
    fs: Fs, setting: Setting, components: seq<string>, depth: nat, directories: seq<Inode>,
    ancestors: seq<FullIdentity>, parent: ParentResult)
    requires GoesOnTo(fs, setting, components, depth, directories, ancestors, parent)
    requires |directories| == |components|
    ensures parent == Parent(directories[|directories| - 1], ancestors)
  {
  }

  lemma {:induction false} WayToParent(
    fs: Fs, setting: Setting, components: seq<string>, depth: nat, directories: seq<Inode>,
    ancestors: seq<FullIdentity>, parent: ParentResult)
    returns (way: seq<Inode>)
    requires IsOnTheWay(fs, setting, components, depth, directories, ancestors)
    requires GoesOnTo(fs, setting, components, depth, directories, ancestors, parent)
    ensures |way| == |components| && IsOnTheWay(fs, setting, components, depth, way, parent.ancestors)
    ensures parent.inode == way[|way| - 1]
    decreases |components| - |directories|
  {
    if |directories| == |components| {
      way := directories;
      GoesNoFurther(fs, setting, components, depth, directories, ancestors, parent);
    } else {
      var child := GoesOn(fs, setting, components, depth, directories, ancestors, parent);
      WayGrows(fs, setting, components, depth, directories, ancestors, child);
      way := WayToParent(
        fs, setting, components, depth, directories + [child.inode],
        ancestors + child.via + [IdentityOf(fs, child.inode)], parent);
    }
  }

  /** No symlink is followed on the way to an entry's directory, except that
      `usr/local/share/man` may stand for `usr/local/man`; every directory on it is
      safe, and the last recorded ancestor is the directory itself. */
  lemma ParentIsWhereThePathLeads(fs: Fs, setting: Setting, components: seq<string>, depth: nat)
    returns (way: seq<Inode>)
    requires components != [] && ParentOf(fs, setting, components, depth).Parent?
    ensures |way| == |components| && way[0] == setting.trustedRoot
    ensures forall k | 0 <= k < |way| :: LeadsTo(fs, setting.trustedRoot, components[..k], way[k])
    ensures IsSafeWay(fs, setting, depth, way)
    ensures var parent := ParentOf(fs, setting, components, depth);
      && parent.inode == way[|way| - 1] && EndsAt(fs, parent.ancestors, way)
      && LeadsTo(fs, setting.trustedRoot, components[..|components| - 1], parent.inode)
  {
    var root := setting.trustedRoot;
    assert components[..0] == [];
    assert Walk(fs, root, []) == Some(Identity(root, Directory));
    var parent := ParentOf(fs, setting, components, depth);
    assert GoesOnTo(fs, setting, components, depth, [root], [IdentityOf(fs, root)], parent);
    way := WayToParent(fs, setting, components, depth, [root], [IdentityOf(fs, root)], parent);
    assert way[0] == root by {
      assert LeadsTo(fs, root, components[..0], way[0]);
    }
  }

  // ----- inspecting and verifying -----

  function Leaf(entry: ParsedPath): string
    requires entry.components != []
  {
    entry.components[|entry.components| - 1]
  }

  /** A candidate for removal; none when the entry must not be touched. */
  function InspectCandidate(fs: Fs, setting: Setting, entry: ParsedPath, depth: nat): Option<Candidate>
    requires entry.components != []
  {
    match ParentOf(fs, setting, entry.components, depth)
    case ParentRefused => None
    case ParentMissing => Some(Candidate(entry, depth, None))
    case Parent(parent, ancestors) =>
      var found := Lookup(fs, parent, Leaf(entry));
      if found.None? then Some(Candidate(entry, depth, None))
      else
        var identity := IdentityOf(fs, found.value);
        if !identity.kind.Regular? || identity.owner != setting.effectiveUser || OthersMayWrite(identity.mode) then None
        else Some(Candidate(entry, depth, Some(Found(parent, ancestors, identity))))
  }

  predicate IsCandidate(c: Candidate) {
    c.entry.components != [] && (c.found.Some? ==> c.found.value.identity.kind.Regular?)
  }

  predicate IsVerified(fs: Fs, setting: Setting, c: Candidate)
    requires c.entry.components != []
  {
    c.found.Some? ==>
      var parent := ParentOf(fs, setting, c.entry.components, c.depth);
      var now := Lookup(fs, c.found.value.parent, Leaf(c.entry));
      && parent.Parent? && parent.ancestors == c.found.value.ancestors
      && now.Some? && IdentityOf(fs, now.value) == c.found.value.identity
  }

  method VerifyCandidateIdentity(fs: Fs, setting: Setting, c: Candidate) returns (ok: bool)
    requires c.entry.components != []
    ensures ok == IsVerified(fs, setting, c)
  {
    if c.found.None? {
      return true;
    }
    var expected := c.found.value;
    var parent := OpenCandidateParent(fs, setting, c.entry.components, c.depth);
    if !parent.Parent? || |parent.ancestors| != |expected.ancestors| {
      return false;
    }
    for index := 0 to |expected.ancestors|
      invariant forall k | 0 <= k < index :: expected.ancestors[k] == parent.ancestors[k]
    {
      if expected.ancestors[index] != parent.ancestors[index] {
        return false;
      }
    }
    var now := Lookup(fs, expected.parent, Leaf(c.entry));
    ok := now.Some? && IdentityOf(fs, now.value) == expected.identity;
  }

  lemma FreshIsVerified(fs: Fs, setting: Setting, entry: ParsedPath, depth: nat)
    requires entry.components != [] && InspectCandidate(fs, setting, entry, depth).Some?
    ensures var c := InspectCandidate(fs, setting, entry, depth).value; IsCandidate(c) && IsVerified(fs, setting, c)
  {
  }

  /** A candidate that verifies, on whatever file system, still has its path lead to
      the very directory whose name would be unlinked. */
  lemma VerifiedLeadsToSame(before: Fs, now: Fs, setting: Setting, entry: ParsedPath, depth: nat)
    requires entry.components != [] && InspectCandidate(before, setting, entry, depth).Some?
    requires var c := InspectCandidate(before, setting, entry, depth).value;
      c.found.Some? && IsVerified(now, setting, c)
    ensures var c := InspectCandidate(before, setting, entry, depth).value;
      && ParentOf(now, setting, entry.components, depth).inode == c.found.value.parent
      && LeadsTo(now, setting.trustedRoot, entry.components[..|entry.components| - 1], c.found.value.parent)
  {
    var _ := ParentIsWhereThePathLeads(before, setting, entry.components, depth);
    var _ := ParentIsWhereThePathLeads(now, setting, entry.components, depth);
  }

  // ----- taking names away -----

  type Name = (Inode, string)

  function EntriesWithout(fs: Fs, gone: set<Name>, dir: Inode): map<string, Inode>
    requires dir in fs.nodes
  {
    map name | name in fs.nodes[dir].entries && (dir, name) !in gone :: fs.nodes[dir].entries[name]
  }

  function WithoutNames(fs: Fs, gone: set<Name>): Fs {
    fs.(nodes := map dir | dir in fs.nodes :: fs.nodes[dir].(entries := EntriesWithout(fs, gone, dir)))
  }

  lemma WithoutNone(fs: Fs)
    ensures WithoutNames(fs, {}) == fs
  {
    forall dir | dir in fs.nodes ensures EntriesWithout(fs, {}, dir) == fs.nodes[dir].entries {
    }
    assert WithoutNames(fs, {}).nodes == fs.nodes;
  }

  lemma OneMoreGone(fs: Fs, gone: set<Name>, dir: Inode, name: string)
    requires dir in fs.nodes
    ensures Without(WithoutNames(fs, gone), dir, name) == WithoutNames(fs, gone + {(dir, name)})
  {
    forall k | k in fs.nodes
      ensures EntriesWithout(fs, gone + {(dir, name)}, k)
           == if k == dir then EntriesWithout(fs, gone, k) - {name} else EntriesWithout(fs, gone, k)
    {
    }
    assert Without(WithoutNames(fs, gone), dir, name).nodes == WithoutNames(fs, gone + {(dir, name)}).nodes;
  }

  lemma LookupWithout(fs: Fs, gone: set<Name>, dir: Inode, name: string)
    ensures Lookup(WithoutNames(fs, gone), dir, name) == if (dir, name) in gone then None else Lookup(fs, dir, name)
  {
  }

  /** Every name that went denoted a regular file. */
  ghost predicate WereFiles(fs: Fs, gone: set<Name>) {
    forall dir, name | (dir, name) in gone ::
      Lookup(fs, dir, name).Some? && fs.nodes[Lookup(fs, dir, name).value].kind.Regular?
  }

  lemma OpenKept(fs: Fs, gone: set<Name>, dir: Inode, name: string)
    requires WereFiles(fs, gone)
    ensures OpenDirectoryAt(fs, dir, name).Opened? ==>
      OpenDirectoryAt(WithoutNames(fs, gone), dir, name) == OpenDirectoryAt(fs, dir, name)
    ensures Lookup(fs, dir, name).Some? && !fs.nodes[Lookup(fs, dir, name).value].kind.Regular? ==>
      Lookup(WithoutNames(fs, gone), dir, name) == Lookup(fs, dir, name)
  {
    LookupWithout(fs, gone, dir, name);
  }

  lemma ChildKept(
    fs: Fs, gone: set<Name>, effectiveUser: nat, directories: seq<Inode>, components: seq<string>, index: nat)
    requires WereFiles(fs, gone) && index < |directories| && index < |components|
    requires EnterChild(fs, effectiveUser, directories, components, index).Child?
    ensures EnterChild(WithoutNames(fs, gone), effectiveUser, directories, components, index)
      == EnterChild(fs, effectiveUser, directories, components, index)
  {
    OpenKept(fs, gone, directories[index], components[index]);
    if index == 3 {
      OpenKept(fs, gone, directories[2], "man");
      OpenKept(fs, gone, directories[3], "man");
    }
  }

  /** Files that go do not change the way to a directory. */
  lemma {:induction false} ParentFromKept(
    fs: Fs, gone: set<Name>, setting: Setting, components: seq<string>, depth: nat, directories: seq<Inode>,
    ancestors: seq<FullIdentity>)
    requires WereFiles(fs, gone) && 0 < |directories| <= |components|
    requires ParentFrom(fs, setting, components, depth, directories, ancestors).Parent?
    ensures ParentFrom(WithoutNames(fs, gone), setting, components, depth, directories, ancestors)
      == ParentFrom(fs, setting, components, depth, directories, ancestors)
    decreases |components| - |directories|
  {
    var index := |directories| - 1;
    if index + 1 < |components| {
      ChildKept(fs, gone, setting.effectiveUser, directories, components, index);
      var child := EnterChild(fs, setting.effectiveUser, directories, components, index);
      ParentFromKept(
        fs, gone, setting, components, depth, directories + [child.inode],
        ancestors + child.via + [IdentityOf(fs, child.inode)]);
    }
  }

  function NameOf(c: Candidate): Name
    requires c.entry.components != [] && c.found.Some?
  {
    (c.found.value.parent, Leaf(c.entry))
  }

  /** A verified candidate stays verified until its own name goes. */
  lemma VerifiedKept(fs: Fs, gone: set<Name>, setting: Setting, c: Candidate)
    requires WereFiles(fs, gone) && IsCandidate(c) && IsVerified(fs, setting, c)
    ensures IsVerified(WithoutNames(fs, gone), setting, c) <==> c.found.None? || NameOf(c) !in gone
  {
    if c.found.Some? {
      var root := setting.trustedRoot;
      ParentFromKept(fs, gone, setting, c.entry.components, c.depth, [root], [IdentityOf(fs, root)]);
      LookupWithout(fs, gone, c.found.value.parent, Leaf(c.entry));
    }
  }

  // ----- removal -----

  predicate AreCandidates(candidates: seq<Candidate>) {
    forall i | 0 <= i < |candidates| :: IsCandidate(candidates[i])
  }

  ghost predicate AreVerified(fs: Fs, setting: Setting, candidates: seq<Candidate>)
    requires AreCandidates(candidates)
  {
    forall i | 0 <= i < |candidates| :: IsVerified(fs, setting, candidates[i])
  }

  /** The names of the candidates that exist. */
  ghost function Names(candidates: seq<Candidate>): set<Name>
    requires AreCandidates(candidates)
  {
    set i | 0 <= i < |candidates| && candidates[i].found.Some? :: NameOf(candidates[i])
  }

  /** The turn of candidate `i` succeeds: its name is still there and may go. */
  ghost predicate Goes(fs: Fs, candidates: seq<Candidate>, i: nat)
    requires AreCandidates(candidates) && i < |candidates|
  {
    candidates[i].found.Some? ==>
      && NameOf(candidates[i]) !in Names(candidates[..i])
      && Detachable(fs, candidates[i].found.value.parent, Leaf(candidates[i].entry))
  }

  /** How many turns succeed, from the first on. */
  ghost function Progress(fs: Fs, candidates: seq<Candidate>, i: nat): (n: nat)
    requires AreCandidates(candidates) && i <= |candidates|
    ensures i <= n <= |candidates|
    decreases |candidates| - i
  {
    if i < |candidates| && Goes(fs, candidates, i) then Progress(fs, candidates, i + 1) else i
  }

  /** Every turn succeeds exactly when no two existing entries are the same name of
      the same directory and each of their directories lets the name go. */
  ghost predicate AllMayGo(fs: Fs, candidates: seq<Candidate>)
    requires AreCandidates(candidates)
  {
    && (forall i, j | 0 <= i < j < |candidates| && candidates[i].found.Some? && candidates[j].found.Some? ::
          NameOf(candidates[i]) != NameOf(candidates[j]))
    && (forall i | 0 <= i < |candidates| && candidates[i].found.Some? ::
          Detachable(fs, candidates[i].found.value.parent, Leaf(candidates[i].entry)))
  }

  lemma {:induction false} ProgressStops(fs: Fs, candidates: seq<Candidate>, i: nat)
    requires AreCandidates(candidates) && i <= |candidates|
    ensures var n := Progress(fs, candidates, i);
      && (forall k: nat | i <= k < n :: Goes(fs, candidates, k))
      && (n < |candidates| ==> !Goes(fs, candidates, n))
    decreases |candidates| - i
  {
    if i < |candidates| && Goes(fs, candidates, i) {
      ProgressStops(fs, candidates, i + 1);
    }
  }

  lemma AllMayGoMeans(fs: Fs, candidates: seq<Candidate>)
    requires AreCandidates(candidates)
    ensures Progress(fs, candidates, 0) == |candidates| <==> AllMayGo(fs, candidates)
  {
    ProgressStops(fs, candidates, 0);
    var n := Progress(fs, candidates, 0);
    if n < |candidates| {
      if NameOf(candidates[n]) in Names(candidates[..n]) {
        var i :| 0 <= i < n && candidates[i].found.Some? && NameOf(candidates[i]) == NameOf(candidates[n]);
      }
    } else {
      forall i, j | 0 <= i < j < |candidates| && candidates[i].found.Some? && candidates[j].found.Some?
        ensures NameOf(candidates[i]) != NameOf(candidates[j])
      {
        assert Goes(fs, candidates, j) && candidates[..j][i] == candidates[i];
        assert NameOf(candidates[..j][i]) in Names(candidates[..j]);
      }
      forall i | 0 <= i < |candidates| && candidates[i].found.Some?
        ensures Detachable(fs, candidates[i].found.value.parent, Leaf(candidates[i].entry))
      {
        assert Goes(fs, candidates, i);
      }
    }
  }

  lemma NamesGrow(candidates: seq<Candidate>, i: nat)
    requires AreCandidates(candidates) && i < |candidates|
    ensures Names(candidates[..i + 1]) ==
      Names(candidates[..i]) + (if candidates[i].found.Some? then {NameOf(candidates[i])} else {})
  {
    assert candidates[..i + 1] == candidates[..i] + [candidates[i]];
  }

  lemma NamesWereFiles(fs: Fs, setting: Setting, candidates: seq<Candidate>)
    requires AreCandidates(candidates) && AreVerified(fs, setting, candidates)
    ensures WereFiles(fs, Names(candidates))
  {
    forall dir, name | (dir, name) in Names(candidates)
      ensures Lookup(fs, dir, name).Some? && fs.nodes[Lookup(fs, dir, name).value].kind.Regular?
    {
      var i :| 0 <= i < |candidates| && candidates[i].found.Some? && NameOf(candidates[i]) == (dir, name);
      assert IsVerified(fs, setting, candidates[i]);
    }
  }

  /** What the turn of candidate `i` meets. */
  lemma TurnMeans(fs: Fs, setting: Setting, candidates: seq<Candidate>, i: nat)
    requires AreCandidates(candidates) && AreVerified(fs, setting, candidates) && i < |candidates|
    ensures var now, c := WithoutNames(fs, Names(candidates[..i])), candidates[i];
      && (c.found.Some? ==> c.found.value.parent in fs.nodes)
      && (Goes(fs, candidates, i) <==>
            IsVerified(now, setting, c) && (c.found.Some? ==> CanUnlink(now, c.found.value.parent, Leaf(c.entry))))
      && WithoutNames(fs, Names(candidates[..i + 1])) ==
           if c.found.Some? then Without(now, c.found.value.parent, Leaf(c.entry)) else now
  {
    var gone, c := Names(candidates[..i]), candidates[i];
    assert IsVerified(fs, setting, c);
    NamesWereFiles(fs, setting, candidates[..i]);
    VerifiedKept(fs, gone, setting, c);
    NamesGrow(candidates, i);
    if c.found.Some? {
      OneMoreGone(fs, gone, c.found.value.parent, Leaf(c.entry));
      LookupWithout(fs, gone, c.found.value.parent, Leaf(c.entry));
    } else {
      assert gone + {} == gone;
    }
  }

  /** One turn: verify once more, then unlink. */
  method RemoveCandidate(kernel: Kernel, setting: Setting, candidate: Candidate) returns (ok: bool)
    requires IsCandidate(candidate)
    modifies kernel
    ensures ok <==>
      && IsVerified(old(kernel.fs), setting, candidate)
      && (candidate.found.Some? ==> CanUnlink(old(kernel.fs), candidate.found.value.parent, Leaf(candidate.entry)))
    ensures kernel.fs ==
      if ok && candidate.found.Some? then Without(old(kernel.fs), candidate.found.value.parent, Leaf(candidate.entry))
      else old(kernel.fs)
  {
    if candidate.found.None? {
      return true;
    }
    ok := VerifyCandidateIdentity(kernel.fs, setting, candidate);
    if ok {
      ok := kernel.Unlink(candidate.found.value.parent, Leaf(candidate.entry));
    }
  }

  /** The removal loop: the names go in order up to the first one that cannot. */
  method RemoveVerified(kernel: Kernel, setting: Setting, candidates: seq<Candidate>) returns (ok: bool)
    requires AreCandidates(candidates) && AreVerified(kernel.fs, setting, candidates)
    modifies kernel
    ensures ok <==> Progress(old(kernel.fs), candidates, 0) == |candidates|
    ensures kernel.fs == WithoutNames(old(kernel.fs), Names(candidates[..Progress(old(kernel.fs), candidates, 0)]))
  {
    ghost var start := kernel.fs;
    WithoutNone(start);
    assert Names(candidates[..0]) == {};
    for i := 0 to |candidates|
      invariant kernel.fs == WithoutNames(start, Names(candidates[..i]))
      invariant Progress(start, candidates, 0) == Progress(start, candidates, i)
    {
      TurnMeans(start, setting, candidates, i);
      var removed := RemoveCandidate(kernel, setting, candidates[i]);
      if !removed {
        return false;
      }
    }
    ok := true;
  }

  /** If any candidate fails verification nothing goes.  Otherwise the names go in
      order, and all of them go exactly when each one may. */
  method RemoveCandidates(kernel: Kernel, setting: Setting, candidates: seq<Candidate>) returns (ok: bool)
    requires AreCandidates(candidates)
    modifies kernel
    ensures ok <==> AreVerified(old(kernel.fs), setting, candidates) && AllMayGo(old(kernel.fs), candidates)
    ensures !AreVerified(old(kernel.fs), setting, candidates) ==> kernel.fs == old(kernel.fs)
    ensures AreVerified(old(kernel.fs), setting, candidates) ==>
      kernel.fs == WithoutNames(old(kernel.fs), Names(candidates[..Progress(old(kernel.fs), candidates, 0)]))
  {
    for i := 0 to |candidates|
      invariant kernel.fs == old(kernel.fs)
      invariant forall k | 0 <= k < i :: IsVerified(kernel.fs, setting, candidates[k])
    {
      var verified := VerifyCandidateIdentity(kernel.fs, setting, candidates[i]);
      if !verified {
        return false;
      }
    }
    AllMayGoMeans(kernel.fs, candidates);
    ok := RemoveVerified(kernel, setting, candidates);
  }

  // ----- the whole run -----

  datatype Outcome = Rejected | Failed | Removed

  function CandidateOf(fs: Fs, setting: Setting, entry: ParsedPath, roots: seq<ParsedPath>): Option<Candidate>
    requires entry.components != []
  {
    var depth := DepthOf(entry, roots);
    if depth.None? then None else InspectCandidate(fs, setting, entry, depth.value)
  }

  predicate HaveNames(entries: seq<ParsedPath>) {
    forall i | 0 <= i < |entries| :: entries[i].components != []
  }

  predicate EachIsCandidate(fs: Fs, setting: Setting, entries: seq<ParsedPath>, roots: seq<ParsedPath>)
    requires HaveNames(entries)
  {
    forall i | 0 <= i < |entries| :: CandidateOf(fs, setting, entries[i], roots).Some?
  }

  function CandidatesOf(fs: Fs, setting: Setting, entries: seq<ParsedPath>, roots: seq<ParsedPath>): (r: seq<Candidate>)
    requires HaveNames(entries) && EachIsCandidate(fs, setting, entries, roots)
    ensures |r| == |entries|
  {
    seq(|entries|, i requires 0 <= i < |entries| && CandidateOf(fs, setting, entries[i], roots).Some? =>
      CandidateOf(fs, setting, entries[i], roots).value)
  }

  /** What the program makes of its arguments, the manifest's text and the file
      system it inspects. */
  function Prepared(fs: Fs, setting: Setting, rawRoots: seq<string>, contents: string): Option<seq<Candidate>> {
    var manifest := ManifestOf(contents);
    if !AreRoots(rawRoots) || manifest.None? then None
    else
      var roots := EntriesOf(FirstOccurrences(rawRoots));
      if !HaveNames(manifest.value) || !EachIsCandidate(fs, setting, manifest.value, roots) then None
      else Some(CandidatesOf(fs, setting, manifest.value, roots))
  }

  lemma ManifestHasNames(contents: string)
    requires ManifestOf(contents).Some?
    ensures HaveNames(ManifestOf(contents).value)
  {
    var lines := TextLists.LinesFrom(contents, 0);
    forall i | 0 <= i < |lines| ensures ComponentsOf(lines[i]) != [] {
      assert IsEntryLine(lines[i]);
    }
  }

  method ValidateEntries(entries: seq<ParsedPath>, roots: seq<ParsedPath>) returns (depths: Option<seq<nat>>)
    ensures depths.None? <==> exists i | 0 <= i < |entries| :: DepthOf(entries[i], roots).None?
    ensures depths.Some? ==>
      && |depths.value| == |entries|
      && forall i | 0 <= i < |entries| :: DepthOf(entries[i], roots) == Some(depths.value[i])
  {
    var found: seq<nat> := [];
    for index := 0 to |entries|
      invariant |found| == index
      invariant forall i | 0 <= i < index :: DepthOf(entries[i], roots) == Some(found[i])
    {
      var depth := ValidateAllowedEntry(entries[index], roots);
      if depth.None? {
        return None;
      }
      found := found + [depth.value];
    }
    depths := Some(found);
  }

  method InspectEach(fs: Fs, setting: Setting, entries: seq<ParsedPath>, roots: seq<ParsedPath>, depths: seq<nat>)
    returns (candidates: Option<seq<Candidate>>)
    requires HaveNames(entries) && |depths| == |entries|
    requires forall i | 0 <= i < |entries| :: DepthOf(entries[i], roots) == Some(depths[i])
    ensures candidates.Some? <==> EachIsCandidate(fs, setting, entries, roots)
    ensures candidates.Some? ==> candidates.value == CandidatesOf(fs, setting, entries, roots)
  {
    var collected: seq<Candidate> := [];
    for index := 0 to |entries|
      invariant |collected| == index
      invariant forall i | 0 <= i < index :: CandidateOf(fs, setting, entries[i], roots) == Some(collected[i])
    {
      var candidate := InspectCandidate(fs, setting, entries[index], depths[index]);
      if candidate.None? {
        assert CandidateOf(fs, setting, entries[index], roots).None?;
        return None;
      }
      collected := collected + [candidate.value];
    }
    assert EachIsCandidate(fs, setting, entries, roots);
    assert collected == CandidatesOf(fs, setting, entries, roots);
    candidates := Some(collected);
  }

  /** Everything up to the first removal. */
  method PrepareCandidates(fs: Fs, setting: Setting, rawRoots: seq<string>, contents: string)
    returns (candidates: Option<seq<Candidate>>)
    ensures candidates == Prepared(fs, setting, rawRoots, contents)
  {
    var roots := ParseAllowedRoots(rawRoots);
    if roots.None? {
      return None;
    }
    var manifest := ParseManifestEntries(contents);
    if manifest.None? {
      return None;
    }
    ManifestHasNames(contents);
    var entries := manifest.value;
    var depths := ValidateEntries(entries, roots.value);
    if depths.None? {
      return None;
    }
    candidates := InspectEach(fs, setting, entries, roots.value, depths.value);
  }

  /** On a quiet file system everything that was inspected verifies: there a run
      fails only for two existing entries that are one name of one directory, or
      for a directory that keeps its names. */
  lemma PreparedAreCandidates(fs: Fs, setting: Setting, rawRoots: seq<string>, contents: string)
    requires Prepared(fs, setting, rawRoots, contents).Some?
    ensures var candidates := Prepared(fs, setting, rawRoots, contents).value;
      AreCandidates(candidates) && AreVerified(fs, setting, candidates)
  {
    var entries, roots := ManifestOf(contents).value, EntriesOf(FirstOccurrences(rawRoots));
    forall i | 0 <= i < |entries|
      ensures var c := CandidateOf(fs, setting, entries[i], roots).value; IsCandidate(c) && IsVerified(fs, setting, c)
    {
      FreshIsVerified(fs, setting, entries[i], DepthOf(entries[i], roots).value);
    }
  }

  /** The whole run; `later` is the file system once the inspection is over. */
  method Uninstall(kernel: Kernel, setting: Setting, rawRoots: seq<string>, contents: string, later: Fs)
    returns (outcome: Outcome)
    modifies kernel
    ensures outcome.Rejected? <==> Prepared(old(kernel.fs), setting, rawRoots, contents).None?
    ensures outcome.Rejected? ==> kernel.fs == old(kernel.fs)
    ensures !outcome.Rejected? ==>
      var candidates := Prepared(old(kernel.fs), setting, rawRoots, contents).value;
      && AreCandidates(candidates)
      && (outcome.Removed? <==> AreVerified(later, setting, candidates) && AllMayGo(later, candidates))
      && (outcome.Removed? ==> kernel.fs == WithoutNames(later, Names(candidates)))
      && (!AreVerified(later, setting, candidates) ==> kernel.fs == later)
      && (AreVerified(later, setting, candidates) ==>
            kernel.fs == WithoutNames(later, Names(candidates[..Progress(later, candidates, 0)])))
  {
    var prepared := PrepareCandidates(kernel.fs, setting, rawRoots, contents);
    if prepared.None? {
      return Rejected;
    }
    PreparedAreCandidates(kernel.fs, setting, rawRoots, contents);
    var candidates := prepared.value;
    kernel.fs := later;
    AllMayGoMeans(later, candidates);
    assert candidates[..|candidates|] == candidates;
    var ok := RemoveCandidates(kernel, setting, candidates);
    outcome := if ok then Removed else Failed;
  }

  // ----- what a run means -----

  ghost predicate IsManifestFile(
    fs: Fs, setting: Setting, rawRoots: seq<string>, entries: seq<ParsedPath>, i: nat, dir: Inode, name: string)
    requires i < |entries|
  {
    var entry := entries[i];
    && entry.components != [] && name == Leaf(entry)
    && (exists root | root in rawRoots :: ComponentsOf(root) < entry.components)
    && LeadsTo(fs, setting.trustedRoot, entry.components[..|entry.components| - 1], dir)
  }

  lemma LiesBeneath(rawRoots: seq<string>, entry: ParsedPath)
    requires DepthOf(entry, EntriesOf(FirstOccurrences(rawRoots))).Some?
    ensures exists root | root in rawRoots :: ComponentsOf(root) < entry.components
  {
    var roots := EntriesOf(FirstOccurrences(rawRoots));
    DepthMeans(entry, roots);
    var k :| 0 <= k < |roots| && roots[k].components < entry.components;
    FirstOccurrencesKeep(rawRoots);
    assert roots[k].text in rawRoots && roots[k].components == ComponentsOf(roots[k].text);
  }

  /** Every name a prepared run may take is the last component of a manifest entry
      strictly beneath an allowed root, in the directory its path leads to, and
      denotes a regular file of the user's that others may not write. */
  lemma TakenNamesAreManifestFiles(
    fs: Fs, setting: Setting, rawRoots: seq<string>, contents: string, dir: Inode, name: string)
    requires Prepared(fs, setting, rawRoots, contents).Some?
    requires var candidates := Prepared(fs, setting, rawRoots, contents).value;
      AreCandidates(candidates) && (dir, name) in Names(candidates)
    ensures exists i | 0 <= i < |ManifestOf(contents).value| ::
      IsManifestFile(fs, setting, rawRoots, ManifestOf(contents).value, i, dir, name)
    ensures var found := Lookup(fs, dir, name);
      && found.Some? && fs.nodes[found.value].kind.Regular?
      && fs.nodes[found.value].owner == setting.effectiveUser && !OthersMayWrite(fs.nodes[found.value].mode)
  {
    var candidates := Prepared(fs, setting, rawRoots, contents).value;
    var entries := ManifestOf(contents).value;
    var i :| 0 <= i < |candidates| && candidates[i].found.Some? && NameOf(candidates[i]) == (dir, name);
    CandidatesComeFrom(fs, setting, rawRoots, contents, i);
    FoundIsManifestFile(fs, setting, rawRoots, entries, i, candidates[i]);
  }

  lemma CandidatesComeFrom(fs: Fs, setting: Setting, rawRoots: seq<string>, contents: string, i: nat)
    requires Prepared(fs, setting, rawRoots, contents).Some? && i < |Prepared(fs, setting, rawRoots, contents).value|
    ensures i < |ManifestOf(contents).value| && ManifestOf(contents).value[i].components != []
    ensures CandidateOf(fs, setting, ManifestOf(contents).value[i], EntriesOf(FirstOccurrences(rawRoots)))
      == Some(Prepared(fs, setting, rawRoots, contents).value[i])
  {
  }

  lemma FoundIsManifestFile(
    fs: Fs, setting: Setting, rawRoots: seq<string>, entries: seq<ParsedPath>, i: nat, c: Candidate)
    requires i < |entries| && entries[i].components != [] && c.found.Some?
    requires CandidateOf(fs, setting, entries[i], EntriesOf(FirstOccurrences(rawRoots))) == Some(c)
    ensures c.entry == entries[i]
    ensures IsManifestFile(fs, setting, rawRoots, entries, i, c.found.value.parent, Leaf(c.entry))
    ensures var found := Lookup(fs, c.found.value.parent, Leaf(c.entry));
      && found.Some? && fs.nodes[found.value].kind.Regular?
      && fs.nodes[found.value].owner == setting.effectiveUser && !OthersMayWrite(fs.nodes[found.value].mode)
  {
    var depth := DepthOf(entries[i], EntriesOf(FirstOccurrences(rawRoots)));
    var _ := ParentIsWhereThePathLeads(fs, setting, entries[i].components, depth.value);
    LiesBeneath(rawRoots, entries[i]);
  }

  /** And every entry whose file exists has its name among them. */
  lemma ExistingFilesAreTaken(fs: Fs, setting: Setting, rawRoots: seq<string>, contents: string, i: nat)
    requires Prepared(fs, setting, rawRoots, contents).Some? && i < |ManifestOf(contents).value|
    requires ManifestOf(contents).value[i].components != []
    ensures var entry, roots := ManifestOf(contents).value[i], EntriesOf(FirstOccurrences(rawRoots));
      var candidates := Prepared(fs, setting, rawRoots, contents).value;
      && AreCandidates(candidates) && DepthOf(entry, roots).Some?
      && var parent := ParentOf(fs, setting, entry.components, DepthOf(entry, roots).value);
         (parent.Parent? && Lookup(fs, parent.inode, Leaf(entry)).Some? ==>
           (parent.inode, Leaf(entry)) in Names(candidates))
  {
    var candidates := Prepared(fs, setting, rawRoots, contents).value;
    var entry, roots := ManifestOf(contents).value[i], EntriesOf(FirstOccurrences(rawRoots));
    PreparedAreCandidates(fs, setting, rawRoots, contents);
    assert CandidateOf(fs, setting, entry, roots) == Some(candidates[i]);
  }

  // ----- the alias -----

  /** An entry spelled through the alias and the same entry spelled without it are
      the same name of the same directory. */
  lemma AliasSpellingsMeet(fs: Fs, setting: Setting, rest: seq<string>, depth: nat, otherDepth: nat)
    requires rest != []
    requires ParentOf(fs, setting, ALIAS + rest, depth).Parent?
    requires ParentOf(fs, setting, ALIAS_TARGET + rest, otherDepth).Parent?
    requires var link := Walk(fs, setting.trustedRoot, ALIAS); link.Some? && !link.value.kind.Directory?
    ensures ParentOf(fs, setting, ALIAS + rest, depth).inode
         == ParentOf(fs, setting, ALIAS_TARGET + rest, otherDepth).inode
  {
    var root, inner := setting.trustedRoot, rest[..|rest| - 1];
    var spelled, plain := ALIAS + rest, ALIAS_TARGET + rest;
    var _ := ParentIsWhereThePathLeads(fs, setting, spelled, depth);
    var _ := ParentIsWhereThePathLeads(fs, setting, plain, otherDepth);
    assert spelled[..|spelled| - 1] == ALIAS + inner && plain[..|plain| - 1] == ALIAS_TARGET + inner;
    assert (ALIAS + inner)[4..] == inner;
    NotThrough(fs, root, ALIAS, inner);
    assert (ALIAS_TARGET + inner)[2] == "man" && ALIAS[2] == "share";
  }

  /** No path leads through a name that is not a directory. */
  lemma {:induction false} NotThrough(fs: Fs, dir: Inode, path: seq<string>, rest: seq<string>)
    requires Walk(fs, dir, path).Some? && !Walk(fs, dir, path).value.kind.Directory?
    ensures Walk(fs, dir, path + rest).Some? ==> rest == []
    ensures rest == [] ==> Walk(fs, dir, path + rest) == Walk(fs, dir, path)
    decreases |path|
  {
    if rest == [] {
      assert path + rest == path;
    } else if path == [] {
      assert path + rest == rest;
    } else {
      assert (path + rest)[1..] == path[1..] + rest;
      NotThrough(fs, Lookup(fs, dir, path[0]).value, path[1..], rest);
    }
  }

  /** So a manifest that lists an existing file under both spellings is accepted and
      verified, and still the run cannot finish. */
  lemma AliasStopsUninstall(
    fs: Fs, setting: Setting, rawRoots: seq<string>, contents: string, i: nat, j: nat, rest: seq<string>)
    requires Prepared(fs, setting, rawRoots, contents).Some? && rest != []
    requires var candidates := Prepared(fs, setting, rawRoots, contents).value;
      && i < |candidates| && j < |candidates| && candidates[i].found.Some? && candidates[j].found.Some?
      && candidates[i].entry.components == ALIAS + rest && candidates[j].entry.components == ALIAS_TARGET + rest
    requires var link := Walk(fs, setting.trustedRoot, ALIAS); link.Some? && !link.value.kind.Directory?
    ensures var candidates := Prepared(fs, setting, rawRoots, contents).value;
      AreCandidates(candidates) && AreVerified(fs, setting, candidates) && !AllMayGo(fs, candidates)
  {
    PreparedAreCandidates(fs, setting, rawRoots, contents);
    var candidates := Prepared(fs, setting, rawRoots, contents).value;
    FoundWhereParentIs(fs, setting, rawRoots, contents, i);
    FoundWhereParentIs(fs, setting, rawRoots, contents, j);
    AliasIsOneName(fs, setting, candidates[i], candidates[j], rest);
    OneNameTwice(fs, candidates, i, j);
  }

  lemma OneNameTwice(fs: Fs, candidates: seq<Candidate>, i: nat, j: nat)
    requires AreCandidates(candidates) && i < |candidates| && j < |candidates| && i != j
    requires candidates[i].found.Some? && candidates[j].found.Some?
    requires NameOf(candidates[i]) == NameOf(candidates[j])
    ensures !AllMayGo(fs, candidates)
  {
  }

  /** The candidate's file was found in the directory its path leads to. */
  ghost predicate IsInParent(fs: Fs, setting: Setting, c: Candidate) {
    && c.found.Some? && c.entry.components != []
    && var parent := ParentOf(fs, setting, c.entry.components, c.depth);
       parent.Parent? && parent.inode == c.found.value.parent
  }

  lemma AliasIsOneName(fs: Fs, setting: Setting, a: Candidate, b: Candidate, rest: seq<string>)
    requires rest != [] && a.entry.components == ALIAS + rest && b.entry.components == ALIAS_TARGET + rest
    requires IsInParent(fs, setting, a) && IsInParent(fs, setting, b)
    requires var link := Walk(fs, setting.trustedRoot, ALIAS); link.Some? && !link.value.kind.Directory?
    ensures NameOf(a) == NameOf(b) && a != b
  {
    AliasSpellingsMeet(fs, setting, rest, a.depth, b.depth);
    assert (ALIAS + rest)[2] == "share" && (ALIAS_TARGET + rest)[2] == "man";
  }

  lemma FoundWhereParentIs(fs: Fs, setting: Setting, rawRoots: seq<string>, contents: string, i: nat)
    requires Prepared(fs, setting, rawRoots, contents).Some?
    requires var candidates := Prepared(fs, setting, rawRoots, contents).value;
      i < |candidates| && candidates[i].found.Some? && candidates[i].entry.components != []
    ensures IsInParent(fs, setting, Prepared(fs, setting, rawRoots, contents).value[i])
  {
    CandidatesComeFrom(fs, setting, rawRoots, contents, i);
  }

  // ----- a manifest that cannot be carried out -----

  /** `/usr/local/share/man/x` and `/usr/local/man/x`, a line each. */
  function BothSpellings(): string {
    PathText(ALIAS + ["x"]) + "\n" + PathText(ALIAS_TARGET + ["x"]) + "\n"
  }

  function OwnDirectory(entries: map<string, Inode>): Node {
    Node(Directory, 0, 0, 0x1ED, "", true, true, {}, entries)
  }

  /** `share/man` is the symlink that stands for `man`, which holds one file. */
  function ManTree(): Fs {
    Fs(map[
         Inode(0, 1) := OwnDirectory(map["usr" := Inode(0, 2)]),
         Inode(0, 2) := OwnDirectory(map["local" := Inode(0, 3)]),
         Inode(0, 3) := OwnDirectory(map["share" := Inode(0, 4), "man" := Inode(0, 5)]),
         Inode(0, 4) := OwnDirectory(map["man" := Inode(0, 6)]),
         Inode(0, 5) := OwnDirectory(map["x" := Inode(0, 7)]),
         Inode(0, 6) := Node(Symlink, 0, 0, 0x1FF, "../man", true, true, {}, map[]),
         Inode(0, 7) := Node(Regular, 0, 0, 0x1A4, "", true, true, {}, map[])],
       map[], None)
  }

  function ManSetting(): Setting {
    Setting(0, Inode(0, 1), false)
  }

  ghost predicate IsOneLine(component: string) {
    '\n' !in component && '\r' !in component
  }

  lemma {:induction false} JoinIsOneLine(components: seq<string>)
    requires forall p | p in components :: IsOneLine(p)
    ensures IsOneLine(TextLists.Join(components, '/'))
  {
    if |components| > 1 {
      JoinIsOneLine(components[1..]);
      assert components[0] in components;
    } else if |components| == 1 {
      assert components[0] in components;
    }
  }

  lemma EntryOfComponents(components: seq<string>)
    requires AreComponents(components) && components != [] && forall p | p in components :: IsOneLine(p)
    ensures IsEntryLine(PathText(components)) && ComponentsOf(PathText(components)) == components
    ensures '\n' !in PathText(components)
  {
    CanonicalText(components);
    JoinIsOneLine(components);
    assert PathText(components) != "/" by {
      assert ComponentsOf("/") == [];
    }
  }

  lemma TwoEntries(a: seq<string>, b: seq<string>)
    requires AreComponents(a) && AreComponents(b) && a != [] && b != [] && a != b
    requires forall p | p in a || p in b :: IsOneLine(p)
    ensures ManifestOf(PathText(a) + "\n" + PathText(b) + "\n")
      == Some([ParsedPath(PathText(a), a), ParsedPath(PathText(b), b)])
  {
    var lines := [PathText(a), PathText(b)];
    EntryOfComponents(a);
    EntryOfComponents(b);
    assert lines[1..] == [PathText(b)];
    assert TextLists.Join(lines, '\n') + "\n" == PathText(a) + "\n" + PathText(b) + "\n";
    ManifestRoundTrip(lines, true);
    assert EntriesOf(lines) == [ParsedPath(PathText(a), a), ParsedPath(PathText(b), b)];
  }

  lemma OneRoot(components: seq<string>)
    requires AreComponents(components) && components != []
    ensures AreRoots([PathText(components)])
    ensures EntriesOf(FirstOccurrences([PathText(components)])) == [ParsedPath(PathText(components), components)]
  {
    CanonicalText(components);
    var texts := [PathText(components)];
    assert texts[..0] == [];
    assert FirstOccurrences(texts) == [] + texts;
  }

  /** A way whose every step is a safe one leads to the parent. */
  lemma {:induction false} WayLeadsToParent(
    fs: Fs, setting: Setting, components: seq<string>, depth: nat, way: seq<Inode>, k: nat,
    ancestors: seq<FullIdentity>)
    requires 0 < k <= |way| == |components|
    requires forall index | k - 1 <= index < |way| - 1 :: IsSafeStep(fs, setting, components, depth, way, index)
    ensures var parent := ParentFrom(fs, setting, components, depth, way[..k], ancestors);
      parent.Parent? && parent.inode == way[|way| - 1]
    decreases |way| - k
  {
    if k < |way| {
      assert IsSafeStep(fs, setting, components, depth, way, k - 1);
      var child := EnterChild(fs, setting.effectiveUser, way[..k], components, k - 1);
      assert way[..k + 1] == way[..k] + [way[k]];
      WayLeadsToParent(
        fs, setting, components, depth, way, k + 1, ancestors + child.via + [IdentityOf(fs, child.inode)]);
    }
  }

  ghost predicate IsSafeStep(
    fs: Fs, setting: Setting, components: seq<string>, depth: nat, way: seq<Inode>, index: nat)
    requires |way| == |components| && index < |way| - 1
  {
    var child := EnterChild(fs, setting.effectiveUser, way[..index + 1], components, index);
    && child.Child? && child.inode == way[index + 1]
    && IsSafeAncestor(fs, setting.effectiveUser, child.inode, setting.isLive && index + 1 < depth)
  }

  lemma ManDirectories(k: nat)
    requires 1 <= k <= 5
    ensures IsSafeAncestor(ManTree(), 0, Inode(0, k), false) && ManTree().nodes[Inode(0, k)].readable
  {
    assert !OthersMayWrite(0x1ED);
  }

  lemma OpensInManTree()
    ensures var fs := ManTree();
      && OpenDirectoryAt(fs, Inode(0, 1), "usr") == Opened(Inode(0, 2))
      && OpenDirectoryAt(fs, Inode(0, 2), "local") == Opened(Inode(0, 3))
      && OpenDirectoryAt(fs, Inode(0, 3), "share") == Opened(Inode(0, 4))
      && OpenDirectoryAt(fs, Inode(0, 3), "man") == Opened(Inode(0, 5))
      && OpenDirectoryAt(fs, Inode(0, 4), "man") == NotADirectory && IsAlias(fs, 0, Inode(0, 4))
  {
  }

  lemma SafeStep(components: seq<string>, way: seq<Inode>, index: nat, k: nat)
    requires |way| == |components| && index < |way| - 1 && 1 <= k <= 5 && way[index + 1] == Inode(0, k)
    requires OpenDirectoryAt(ManTree(), way[index], components[index]) == Opened(Inode(0, k))
    ensures IsSafeStep(ManTree(), ManSetting(), components, 2, way, index)
  {
    ManDirectories(k);
  }

  lemma FirstSteps(components: seq<string>, way: seq<Inode>)
    requires |way| == |components| > 3 && components[0] == "usr" && components[1] == "local"
    requires way[0] == Inode(0, 1) && way[1] == Inode(0, 2) && way[2] == Inode(0, 3)
    ensures IsSafeStep(ManTree(), ManSetting(), components, 2, way, 0)
    ensures IsSafeStep(ManTree(), ManSetting(), components, 2, way, 1)
  {
    OpensInManTree();
    SafeStep(components, way, 0, 2);
    SafeStep(components, way, 1, 3);
  }

  lemma AliasStep(components: seq<string>, way: seq<Inode>)
    requires components == ALIAS + ["x"] && |way| == 5
    requires way[2] == Inode(0, 3) && way[3] == Inode(0, 4) && way[4] == Inode(0, 5)
    ensures IsSafeStep(ManTree(), ManSetting(), components, 2, way, 3)
  {
    OpensInManTree();
    ManDirectories(5);
    assert components[3] == "man" && IsAliasName(components, 3);
  }

  lemma ParentOfWay(components: seq<string>, way: seq<Inode>)
    requires |way| == |components| && way != [] && way[0] == Inode(0, 1)
    requires forall index | 0 <= index < |way| - 1 :: IsSafeStep(ManTree(), ManSetting(), components, 2, way, index)
    ensures var parent := ParentOf(ManTree(), ManSetting(), components, 2);
      parent.Parent? && parent.inode == way[|way| - 1]
  {
    ManDirectories(1);
    assert way[..1] == [Inode(0, 1)];
    WayLeadsToParent(ManTree(), ManSetting(), components, 2, way, 1, [IdentityOf(ManTree(), Inode(0, 1))]);
  }

  lemma SpelledParent(components: seq<string>)
    requires components == ALIAS + ["x"]
    ensures var parent := ParentOf(ManTree(), ManSetting(), components, 2);
      parent.Parent? && parent.inode == Inode(0, 5)
  {
    OpensInManTree();
    var way := [Inode(0, 1), Inode(0, 2), Inode(0, 3), Inode(0, 4), Inode(0, 5)];
    FirstSteps(components, way);
    SafeStep(components, way, 2, 4);
    AliasStep(components, way);
    ParentOfWay(components, way);
  }

  lemma PlainParent(components: seq<string>)
    requires components == ALIAS_TARGET + ["x"]
    ensures var parent := ParentOf(ManTree(), ManSetting(), components, 2);
      parent.Parent? && parent.inode == Inode(0, 5)
  {
    OpensInManTree();
    var way := [Inode(0, 1), Inode(0, 2), Inode(0, 3), Inode(0, 5)];
    FirstSteps(components, way);
    SafeStep(components, way, 2, 5);
    ParentOfWay(components, way);
  }

  lemma WalkInManTree(path: seq<string>, k: nat, next: nat)
    requires path != [] && 1 <= k <= 5 && Lookup(ManTree(), Inode(0, k), path[0]) == Some(Inode(0, next))
    requires 1 <= next <= 5
    ensures Walk(ManTree(), Inode(0, k), path) == Walk(ManTree(), Inode(0, next), path[1..])
  {
  }

  lemma LinkIsInTheWay()
    ensures Walk(ManTree(), Inode(0, 1), ALIAS) == Some(Identity(Inode(0, 6), Symlink))
  {
    OpensInManTree();
    WalkInManTree(ALIAS, 1, 2);
    WalkInManTree(ALIAS[1..], 2, 3);
    WalkInManTree(ALIAS[1..][1..], 3, 4);
    assert ALIAS[1..][1..][1..] == ["man"];
    WalkName(ManTree(), Inode(0, 4), "man");
  }

  ghost predicate IsFoundBelow(fs: Fs, setting: Setting, entry: ParsedPath, roots: seq<ParsedPath>) {
    && entry.components != []
    && var c := CandidateOf(fs, setting, entry, roots);
       c.Some? && c.value.found.Some? && c.value.entry == entry
  }

  lemma TwoArePrepared(
    fs: Fs, setting: Setting, rawRoots: seq<string>, contents: string, roots: seq<ParsedPath>,
    a: ParsedPath, b: ParsedPath)
    requires ManifestOf(contents) == Some([a, b])
    requires AreRoots(rawRoots) && EntriesOf(FirstOccurrences(rawRoots)) == roots
    requires IsFoundBelow(fs, setting, a, roots) && IsFoundBelow(fs, setting, b, roots)
    ensures var prepared := Prepared(fs, setting, rawRoots, contents);
      && prepared.Some? && |prepared.value| == 2
      && prepared.value[0].found.Some? && prepared.value[0].entry == a
      && prepared.value[1].found.Some? && prepared.value[1].entry == b
  {
    var entries := [a, b];
    assert HaveNames(entries) && EachIsCandidate(fs, setting, entries, roots);
    assert Prepared(fs, setting, rawRoots, contents) == Some(CandidatesOf(fs, setting, entries, roots));
  }

  lemma TwoSpellingsStop(
    fs: Fs, setting: Setting, rawRoots: seq<string>, contents: string, roots: seq<ParsedPath>,
    a: ParsedPath, b: ParsedPath, rest: seq<string>)
    requires ManifestOf(contents) == Some([a, b]) && rest != []
    requires AreRoots(rawRoots) && EntriesOf(FirstOccurrences(rawRoots)) == roots
    requires a.components == ALIAS + rest && b.components == ALIAS_TARGET + rest
    requires IsFoundBelow(fs, setting, a, roots) && IsFoundBelow(fs, setting, b, roots)
    requires var link := Walk(fs, setting.trustedRoot, ALIAS); link.Some? && !link.value.kind.Directory?
    ensures var prepared := Prepared(fs, setting, rawRoots, contents);
      && prepared.Some? && AreCandidates(prepared.value) && AreVerified(fs, setting, prepared.value)
      && !AllMayGo(fs, prepared.value)
  {
    TwoArePrepared(fs, setting, rawRoots, contents, roots, a, b);
    AliasStopsUninstall(fs, setting, rawRoots, contents, 0, 1, rest);
  }

  /** The file is found where the entry's parent is. */
  lemma ManCandidate(entry: ParsedPath, roots: seq<ParsedPath>)
    requires entry.components != [] && Leaf(entry) == "x"
    requires var parent := ParentOf(ManTree(), ManSetting(), entry.components, 2);
      parent.Parent? && parent.inode == Inode(0, 5)
    requires |roots| == 1 && roots[0].components == ["usr", "local"] < entry.components
    ensures IsFoundBelow(ManTree(), ManSetting(), entry, roots)
  {
    assert DepthOf(entry, roots) == Some(2);
    assert Lookup(ManTree(), Inode(0, 5), "x") == Some(Inode(0, 7));
    assert !OthersMayWrite(0x1A4);
  }

  lemma BothAreFound(fs: Fs, setting: Setting, a: ParsedPath, b: ParsedPath, roots: seq<ParsedPath>)
    requires fs == ManTree() && setting == ManSetting()
    requires roots == [ParsedPath(PathText(["usr", "local"]), ["usr", "local"])]
    requires a.components == ALIAS + ["x"] && b.components == ALIAS_TARGET + ["x"]
    ensures IsFoundBelow(fs, setting, a, roots) && IsFoundBelow(fs, setting, b, roots)
    ensures Walk(fs, setting.trustedRoot, ALIAS) == Some(Identity(Inode(0, 6), Symlink))
  {
    SpelledParent(a.components);
    PlainParent(b.components);
    ManCandidate(a, roots);
    ManCandidate(b, roots);
    LinkIsInTheWay();
  }

  lemma SpellingsArePlain()
    ensures AreComponents(ALIAS + ["x"]) && AreComponents(ALIAS_TARGET + ["x"]) && ALIAS + ["x"] != ALIAS_TARGET + ["x"]
    ensures forall p | p in ALIAS + ["x"] || p in ALIAS_TARGET + ["x"] :: IsOneLine(p)
  {
    assert (ALIAS + ["x"])[2] != (ALIAS_TARGET + ["x"])[2];
  }

  lemma BothAreListed(rawRoots: seq<string>, contents: string, a: ParsedPath, b: ParsedPath)
    requires rawRoots == [PathText(["usr", "local"])] && contents == BothSpellings()
    requires a == ParsedPath(PathText(ALIAS + ["x"]), ALIAS + ["x"])
    requires b == ParsedPath(PathText(ALIAS_TARGET + ["x"]), ALIAS_TARGET + ["x"])
    ensures ManifestOf(contents) == Some([a, b]) && AreRoots(rawRoots)
    ensures EntriesOf(FirstOccurrences(rawRoots)) == [ParsedPath(PathText(["usr", "local"]), ["usr", "local"])]
  {
    SpellingsArePlain();
    TwoEntries(a.components, b.components);
    OneRoot(["usr", "local"]);
  }

  /** A manifest of two lines on a file system where nothing else is wrong: it is
      prepared and verified, yet the run cannot finish. */
  lemma BothSpellingsStopUninstall(fs: Fs, setting: Setting, rawRoots: seq<string>, contents: string)
    requires fs == ManTree() && setting == ManSetting()
    requires rawRoots == [PathText(["usr", "local"])] && contents == BothSpellings()
    ensures var prepared := Prepared(fs, setting, rawRoots, contents);
      && prepared.Some? && AreCandidates(prepared.value) && AreVerified(fs, setting, prepared.value)
      && !AllMayGo(fs, prepared.value)
  {
    var a := ParsedPath(PathText(ALIAS + ["x"]), ALIAS + ["x"]);
    var b := ParsedPath(PathText(ALIAS_TARGET + ["x"]), ALIAS_TARGET + ["x"]);
    var roots := EntriesOf(FirstOccurrences(rawRoots));
    BothAreListed(rawRoots, contents, a, b);
    BothAreFound(fs, setting, a, b, roots);
    TwoSpellingsStop(fs, setting, rawRoots, contents, roots, a, b, ["x"]);
  }
}
