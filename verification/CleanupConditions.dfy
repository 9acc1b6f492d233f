/**
 What a cleanup comes to, told from the fields of the file systems before and after
 the scan: the program's outcome names none of the scan's own conditions here.
 */
module CleanupConditions {
  import opened Wrappers
  import opened FileSystem
  import opened FileSystemView
  import opened WorkspaceCleanup

  /** The workspace that was created: a directory of mode 0700 and its owner, under its
      name in the trusted cache root of the same owner. */
  ghost predicate IsWorkspaceAt(fs: Fs, root: Inode, leaf: string, inode: Inode, owner: nat) {
    && fs.cacheRoot == Some(root)
    && Denotes(fs, root, leaf, inode) && fs.nodes[root].owner == owner
    && fs.nodes[inode].kind == Directory && fs.nodes[inode].owner == owner && fs.nodes[inode].mode == 7 * 64
  }

  /** Every directory below can be read and is on the workspace's device, every name in
      it denotes something, and nothing is mounted over a directory. */
  ghost predicate IsOneReadableTree(fs: Fs, inode: Inode) {
    forall k | IsBelow(fs, inode, k) ::
      && fs.nodes[k].readable && k.device == inode.device
      && forall name | name in fs.nodes[k].entries ::
           exists c :: Denotes(fs, k, name, c) && (fs.nodes[c].kind == Directory ==> (k, name) !in fs.mounts)
  }

  /** Below the workspace the same names denote the same inodes of the same types. */
  ghost predicate ShowsTheSame(before: Fs, after: Fs, inode: Inode) {
    forall k, name, c | IsBelow(before, inode, k) ::
      && (Denotes(before, k, name, c) <==> Denotes(after, k, name, c))
      && (Denotes(before, k, name, c) ==> before.nodes[c].kind == after.nodes[c].kind)
  }

  ghost predicate IsReadable(fs: Fs, inode: Inode) {
    forall k | IsBelow(fs, inode, k) :: fs.nodes[k].readable
  }

  /** The name may be taken out of its directory. */
  ghost predicate LetsGo(fs: Fs, dir: Inode, name: string) {
    && dir in fs.nodes && fs.nodes[dir].kind == Directory && fs.nodes[dir].writable
    && name !in fs.nodes[dir].kept && (dir, name) !in fs.mounts
  }

  ghost predicate LetsEverythingGo(fs: Fs, root: Inode, leaf: string, inode: Inode) {
    && LetsGo(fs, root, leaf)
    && forall k | IsBelow(fs, inode, k) :: forall name | name in fs.nodes[k].entries :: LetsGo(fs, k, name)
  }

  lemma InPlaceMeans(fs: Fs, root: Inode, leaf: string, inode: Inode, owner: nat)
    ensures WorkspaceInPlace(fs, root, leaf, inode, owner) <==> IsWorkspaceAt(fs, root, leaf, inode, owner)
  {
    LookupDenotes(fs, root, leaf);
  }

  lemma ReachableMeans(fs: Fs, dir: Inode, k: Inode)
    ensures Reachable(fs, dir, k) <==> IsBelow(fs, dir, k)
  {
    if Reachable(fs, dir, k) {
      var path :| Walk(fs, dir, path) == Some(Identity(k, Directory));
      WalkIsChain(fs, dir, path, k);
    }
    if IsBelow(fs, dir, k) {
      var path :| LeadsDown(fs, dir, path, k);
      WalkIsChain(fs, dir, path, k);
    }
  }

  // ----- trees of directories -----

  /** `name` in `dir` is an entry for the directory `child`. */
  ghost predicate IsSubdirectory(fs: Fs, dir: Inode, name: string, child: Inode) {
    && dir in fs.nodes && fs.nodes[dir].kind == Directory
    && name in fs.nodes[dir].entries && fs.nodes[dir].entries[name] == child
    && child in fs.nodes && fs.nodes[child].kind == Directory
  }

  /** Every directory is one level below any directory that has an entry for it. */
  ghost predicate GoesDown(fs: Fs, level: map<Inode, nat>) {
    && (forall dir | dir in fs.nodes && fs.nodes[dir].kind == Directory :: dir in level)
    && forall dir, name, child | IsSubdirectory(fs, dir, name, child) :: level[child] == level[dir] + 1
  }

  /** No directory has two entries, and levels can be counted, so no directory lies
      below itself. */
  ghost predicate AreTrees(fs: Fs) {
    && (forall a, x, b, y, child | IsSubdirectory(fs, a, x, child) && IsSubdirectory(fs, b, y, child) ::
          a == b && x == y)
    && exists level :: GoesDown(fs, level)
  }

  lemma {:induction false} LevelsHaveBound(level: map<Inode, nat>) returns (bound: nat)
    ensures forall dir | dir in level :: level[dir] <= bound
    decreases |level|
  {
    bound := 0;
    if dir :| dir in level {
      var fewer := map k | k in level && k != dir :: level[k];
      assert fewer.Keys == level.Keys - {dir};
      var most := LevelsHaveBound(fewer);
      bound := if level[dir] > most then level[dir] else most;
      forall k | k in level ensures level[k] <= bound {
        assert k != dir ==> k in fewer;
      }
    }
  }

  ghost predicate IsInDirectory(fs: Fs, child: Inode) {
    exists dir, name :: IsSubdirectory(fs, dir, name, child)
  }

  ghost function EntryFor(fs: Fs, child: Inode): (entry: (Inode, string))
    requires IsInDirectory(fs, child)
    ensures IsSubdirectory(fs, entry.0, entry.1, child)
  {
    var dir, name :| IsSubdirectory(fs, dir, name, child);
    (dir, name)
  }

  lemma TreesHaveShape(fs: Fs) returns (shape: Shape)
    requires AreTrees(fs)
    ensures TreeShaped(fs, shape)
  {
    var level :| GoesDown(fs, level);
    var bound := LevelsHaveBound(level);
    shape := Shape(map child | child in fs.nodes && IsInDirectory(fs, child) :: EntryFor(fs, child), level, bound);
    forall dir, name | IsDirectory(fs, dir) && name in fs.nodes[dir].entries
      ensures OneLevelDown(fs, shape, dir, name)
    {
      var child := fs.nodes[dir].entries[name];
      if IsDirectory(fs, child) {
        assert IsSubdirectory(fs, dir, name, child);
      }
    }
  }

  /** What the removal is told of the shape of the file system is that its directories
      form trees. */
  lemma TreesMean(fs: Fs)
    ensures AreTrees(fs) <==> exists shape :: TreeShaped(fs, shape)
  {
    if AreTrees(fs) {
      var shape := TreesHaveShape(fs);
    }
    if shape :| TreeShaped(fs, shape) {
      ShapedAreTrees(fs, shape);
    }
  }

  lemma ShapedAreTrees(fs: Fs, shape: Shape)
    requires TreeShaped(fs, shape)
    ensures AreTrees(fs)
  {
    forall dir, name, child | IsSubdirectory(fs, dir, name, child)
      ensures child in shape.up && shape.up[child] == (dir, name)
      ensures dir in shape.depth && child in shape.depth && shape.depth[child] == shape.depth[dir] + 1
    {
      assert OneLevelDown(fs, shape, dir, name);
    }
    assert GoesDown(fs, shape.depth);
  }

  // ----- the scan -----

  lemma EnterableMeans(fs: Fs, dir: Inode, name: string, device: nat)
    ensures Enterable(fs, dir, name, device) <==>
      exists c :: Denotes(fs, dir, name, c)
        && (fs.nodes[c].kind == Directory ==>
              c.device == device && (dir, name) !in fs.mounts && fs.nodes[c].readable)
  {
    LookupDenotes(fs, dir, name);
    if Lookup(fs, dir, name).Some? {
      assert Denotes(fs, dir, name, Lookup(fs, dir, name).value);
    }
  }

  lemma NextBelow(fs: Fs, dir: Inode, k: Inode, name: string, c: Inode)
    requires IsBelow(fs, dir, k) && Denotes(fs, k, name, c) && fs.nodes[c].kind == Directory
    ensures IsBelow(fs, dir, c)
  {
    var names :| LeadsDown(fs, dir, names, k);
    ChainEnds(fs, dir, names, k, name, c);
  }

  lemma ChainEnds(fs: Fs, dir: Inode, names: seq<string>, k: Inode, name: string, c: Inode)
    requires LeadsDown(fs, dir, names, k) && Denotes(fs, k, name, c)
    ensures LeadsDown(fs, dir, names + [name], c)
  {
    var chain :| IsChain(fs, chain, names) && chain[0] == dir && chain[|names|] == k;
    var longer, more := chain + [c], names + [name];
    forall i | 0 <= i < |more| ensures Denotes(fs, longer[i], more[i], longer[i + 1]) {
      if i < |names| {
        assert Denotes(fs, chain[i], names[i], chain[i + 1]);
      }
    }
    assert IsChain(fs, longer, more);
  }

  /** A directory below is the start or is denoted in another one below. */
  lemma BelowComesFrom(fs: Fs, dir: Inode, k: Inode) returns (parent: Inode, name: string)
    requires IsBelow(fs, dir, k) && k != dir
    ensures IsBelow(fs, dir, parent) && Denotes(fs, parent, name, k)
  {
    var names :| LeadsDown(fs, dir, names, k);
    var chain :| IsChain(fs, chain, names) && chain[0] == dir && chain[|names|] == k;
    var last := |names| - 1;
    parent, name := chain[last], names[last];
    assert Denotes(fs, chain[last], names[last], chain[last + 1]);
    var shorter, fewer := chain[..|names|], names[..last];
    forall i | 0 <= i < |fewer| ensures Denotes(fs, shorter[i], fewer[i], shorter[i + 1]) {
      assert Denotes(fs, chain[i], names[i], chain[i + 1]);
    }
    assert IsChain(fs, shorter, fewer) && shorter[0] == dir && shorter[|fewer|] == parent;
    assert LeadsDown(fs, dir, fewer, parent);
  }

  lemma ScanMeans(fs: Fs, inode: Inode)
    requires inode in fs.nodes && fs.nodes[inode].kind == Directory
    ensures fs.nodes[inode].readable && Scannable(fs, inode, inode.device) <==> IsOneReadableTree(fs, inode)
  {
    forall k ensures Reachable(fs, inode, k) <==> IsBelow(fs, inode, k) {
      ReachableMeans(fs, inode, k);
    }
    if fs.nodes[inode].readable && Scannable(fs, inode, inode.device) {
      forall k | IsBelow(fs, inode, k) ensures IsEntered(fs, inode, k) {
        ScannedIsEntered(fs, inode, k);
      }
    }
    if IsOneReadableTree(fs, inode) {
      NoNames(fs, inode, inode);
      assert IsBelow(fs, inode, inode);
      forall k, name | IsBelow(fs, inode, k) && name in fs.nodes[k].entries
        ensures Enterable(fs, k, name, inode.device)
      {
        TreeIsEnterable(fs, inode, k, name);
      }
    }
  }

  ghost predicate IsEntered(fs: Fs, inode: Inode, k: Inode)
    requires k in fs.nodes
  {
    && fs.nodes[k].readable && k.device == inode.device
    && forall name | name in fs.nodes[k].entries ::
         exists c :: Denotes(fs, k, name, c) && (fs.nodes[c].kind == Directory ==> (k, name) !in fs.mounts)
  }

  lemma ScannedIsEntered(fs: Fs, inode: Inode, k: Inode)
    requires inode in fs.nodes && fs.nodes[inode].readable && Scannable(fs, inode, inode.device)
    requires IsBelow(fs, inode, k)
    ensures IsEntered(fs, inode, k)
  {
    ReachableMeans(fs, inode, k);
    if k != inode {
      var parent, name := BelowComesFrom(fs, inode, k);
      ReachableMeans(fs, inode, parent);
      EnterableMeans(fs, parent, name, inode.device);
      assert Enterable(fs, parent, name, inode.device);
    }
    forall name | name in fs.nodes[k].entries
      ensures exists c :: Denotes(fs, k, name, c) && (fs.nodes[c].kind == Directory ==> (k, name) !in fs.mounts)
    {
      EnterableMeans(fs, k, name, inode.device);
    }
  }

  lemma TreeIsEnterable(fs: Fs, inode: Inode, k: Inode, name: string)
    requires IsOneReadableTree(fs, inode) && IsBelow(fs, inode, k) && name in fs.nodes[k].entries
    ensures Enterable(fs, k, name, inode.device)
  {
    var c :| Denotes(fs, k, name, c) && (fs.nodes[c].kind == Directory ==> (k, name) !in fs.mounts);
    if fs.nodes[c].kind == Directory {
      NextBelow(fs, inode, k, name, c);
    }
    EnterableMeans(fs, k, name, inode.device);
  }

  // ----- the recheck -----

  lemma SameTreeShows(before: Fs, after: Fs, inode: Inode)
    requires SameTree(before, after, inode)
    ensures ShowsTheSame(before, after, inode)
  {
    forall k, name, c | IsBelow(before, inode, k)
      ensures Denotes(before, k, name, c) <==> Denotes(after, k, name, c)
      ensures Denotes(before, k, name, c) ==> before.nodes[c].kind == after.nodes[c].kind
    {
      var path :| LeadsDown(before, inode, path, k);
      WalkIsChain(before, inode, path, k);
      ChainWalks(before, inode, path, k, name);
      ChainWalks(after, inode, path, k, name);
      LookupDenotes(before, k, name);
      LookupDenotes(after, k, name);
    }
  }

  lemma {:induction false} ChainWalks(fs: Fs, dir: Inode, path: seq<string>, k: Inode, name: string)
    requires Walk(fs, dir, path) == Some(Identity(k, Directory))
    ensures Walk(fs, dir, path + [name]) == StatusAt(fs, k, name)
    decreases |path|
  {
    if path == [] {
      WalkName(fs, dir, name);
      assert [] + [name] == [name];
    } else {
      ChainWalks(fs, Lookup(fs, dir, path[0]).value, path[1..], k, name);
      assert (path + [name])[1..] == path[1..] + [name];
    }
  }

  lemma {:induction false} ShownIsSame(before: Fs, after: Fs, inode: Inode, dir: Inode, path: seq<string>)
    requires ShowsTheSame(before, after, inode) && IsBelow(before, inode, dir)
    requires dir in after.nodes && after.nodes[dir].kind == Directory
    ensures Walk(before, dir, path) == Walk(after, dir, path)
    decreases |path|
  {
    if path != [] {
      LookupDenotes(before, dir, path[0]);
      LookupDenotes(after, dir, path[0]);
      var next := Lookup(before, dir, path[0]);
      if next.Some? && before.nodes[next.value].kind == Directory {
        NextBelow(before, inode, dir, path[0], next.value);
        ShownIsSame(before, after, inode, next.value, path[1..]);
      }
    }
  }

  lemma SameTreeMeans(before: Fs, after: Fs, inode: Inode)
    requires inode in before.nodes && before.nodes[inode].kind == Directory
    requires inode in after.nodes && after.nodes[inode].kind == Directory
    ensures SameTree(before, after, inode) <==> ShowsTheSame(before, after, inode)
  {
    if SameTree(before, after, inode) {
      SameTreeShows(before, after, inode);
    }
    if ShowsTheSame(before, after, inode) {
      NoNames(before, inode, inode);
      assert IsBelow(before, inode, inode);
      forall path ensures Walk(before, inode, path) == Walk(after, inode, path) {
        ShownIsSame(before, after, inode, inode, path);
      }
    }
  }

  lemma ReadableMeans(fs: Fs, inode: Inode)
    ensures TreeReadable(fs, inode) <==> IsReadable(fs, inode)
  {
    forall k ensures Reachable(fs, inode, k) <==> IsBelow(fs, inode, k) {
      ReachableMeans(fs, inode, k);
    }
  }

  lemma MayGoMeans(fs: Fs, root: Inode, leaf: string, inode: Inode)
    ensures EveryNameDetachable(fs, root, leaf, inode) <==> LetsEverythingGo(fs, root, leaf, inode)
  {
    forall k ensures Reachable(fs, inode, k) <==> IsBelow(fs, inode, k) {
      ReachableMeans(fs, inode, k);
    }
    forall dir, name ensures Detachable(fs, dir, name) <==> LetsGo(fs, dir, name) {
    }
  }

  // ----- the outcome -----

  /** The outcome of a cleanup of an owned workspace whose descriptor is open, each of
      its refusals and its success, from the fields alone. */
  lemma OutcomeMeans(
    before: Fs, after: Fs, effectiveUser: nat, root: Inode, leaf: string, inode: Inode, owner: nat,
    ownsPath: bool, descriptorOpen: bool)
    ensures var r := CleanupResult(before, after, effectiveUser, root, leaf, inode, owner, ownsPath, descriptorOpen);
      var scans :=
        && descriptorOpen && owner == effectiveUser && IsWorkspaceAt(before, root, leaf, inode, owner)
        && IsOneReadableTree(before, inode);
      var rechecks :=
        && IsWorkspaceAt(after, root, leaf, inode, owner) && ShowsTheSame(before, after, inode)
        && IsReadable(after, inode);
      && (r == AlreadyReleased <==> !ownsPath)
      && (r == RefusedBeforeScan <==> ownsPath && !scans)
      && (r == RefusedChanged <==> ownsPath && scans && !rechecks)
      && (r == StoppedMidway <==> ownsPath && scans && rechecks && !LetsEverythingGo(after, root, leaf, inode))
      && (r == Cleaned <==> ownsPath && scans && rechecks && LetsEverythingGo(after, root, leaf, inode))
  {
    InPlaceMeans(before, root, leaf, inode, owner);
    InPlaceMeans(after, root, leaf, inode, owner);
    if IsWorkspaceAt(before, root, leaf, inode, owner) {
      ScanMeans(before, inode);
      if IsWorkspaceAt(after, root, leaf, inode, owner) {
        SameTreeMeans(before, after, inode);
      }
    }
    ReadableMeans(after, inode);
    MayGoMeans(after, root, leaf, inode);
  }

  /** The cleanup never enters another file system: what it cleans is on one device with
      nothing mounted over a directory, and a directory elsewhere refuses it untouched. */
  lemma StaysOnOneDevice(
    before: Fs, after: Fs, owner: nat, root: Inode, leaf: string, inode: Inode, k: Inode)
    requires IsWorkspaceAt(before, root, leaf, inode, owner) && IsBelow(before, inode, k)
    ensures var r := CleanupResult(before, after, owner, root, leaf, inode, owner, true, true);
      && (k.device != inode.device ==> r == RefusedBeforeScan)
      && (forall name, c | Denotes(before, k, name, c) && before.nodes[c].kind == Directory ::
            (k, name) in before.mounts ==> r == RefusedBeforeScan)
      && (r == Cleaned ==> k.device == inode.device)
  {
    OutcomeMeans(before, after, owner, root, leaf, inode, owner, true, true);
    if IsOneReadableTree(before, inode) {
      forall name, c | Denotes(before, k, name, c) && before.nodes[c].kind == Directory
        ensures (k, name) !in before.mounts
      {
        var d :| Denotes(before, k, name, d) && (before.nodes[d].kind == Directory ==> (k, name) !in before.mounts);
        assert c == d;
      }
    }
  }

  /** What a finished cleanup leaves: every inode with its type, owner and mode, every
      mount, and every name but the workspace's own and those in the directories below it. */
  lemma WhatIsLeft(before: Fs, root: Inode, leaf: string, inode: Inode, k: Inode, name: string, c: Inode)
    requires root in before.nodes && k in before.nodes
    ensures var left := Without(Emptied(before, DirectoriesBelow(before, inode)), root, leaf);
      && left.nodes.Keys == before.nodes.Keys && left.mounts == before.mounts
      && left.nodes[k] == before.nodes[k].(entries := left.nodes[k].entries)
      && (name in left.nodes[k].entries && left.nodes[k].entries[name] == c <==>
            && name in before.nodes[k].entries && before.nodes[k].entries[name] == c
            && !IsBelow(before, inode, k) && (k, name) != (root, leaf))
  {
    ReachableMeans(before, inode, k);
  }

  // ----- one cleanup from its inputs -----

  /** The same but for the workspace's own name and the names in directories below it. */
  ghost predicate LacksWorkspace(before: Fs, left: Fs, root: Inode, leaf: string, inode: Inode) {
    && left.nodes.Keys == before.nodes.Keys && left.mounts == before.mounts
    && forall k | k in before.nodes ::
         && left.nodes[k] == before.nodes[k].(entries := left.nodes[k].entries)
         && (forall name :: name in left.nodes[k].entries <==>
               && name in before.nodes[k].entries && !IsBelow(before, inode, k) && (k, name) != (root, leaf))
         && forall name | name in left.nodes[k].entries :: left.nodes[k].entries[name] == before.nodes[k].entries[name]
  }

  /** The same but for names that are missing in directories below the workspace. */
  ghost predicate LacksOnlyInside(before: Fs, left: Fs, inode: Inode) {
    && left.nodes.Keys == before.nodes.Keys && left.mounts == before.mounts
    && forall k | k in before.nodes ::
         && left.nodes[k] == before.nodes[k].(entries := left.nodes[k].entries)
         && (!IsBelow(before, inode, k) ==> left.nodes[k].entries == before.nodes[k].entries)
         && forall name | name in left.nodes[k].entries ::
              name in before.nodes[k].entries && left.nodes[k].entries[name] == before.nodes[k].entries[name]
  }

  lemma StoppedIsInside(before: Fs, left: Fs, inode: Inode)
    requires OnlyRemoved(before, left, DirectoriesBelow(before, inode))
    ensures LacksOnlyInside(before, left, inode)
  {
    forall k | k in before.nodes ensures k in DirectoriesBelow(before, inode) <==> IsBelow(before, inode, k) {
      ReachableMeans(before, inode, k);
    }
  }

  lemma GoneIsLacking(before: Fs, root: Inode, leaf: string, inode: Inode)
    requires root in before.nodes
    ensures LacksWorkspace(
      before, Without(Emptied(before, DirectoriesBelow(before, inode)), root, leaf), root, leaf, inode)
  {
    var left := Without(Emptied(before, DirectoriesBelow(before, inode)), root, leaf);
    forall k | k in before.nodes ensures left.nodes[k] == before.nodes[k].(entries := left.nodes[k].entries) {
      WhatIsLeft(before, root, leaf, inode, k, leaf, inode);
    }
    forall k, name | k in before.nodes && name in left.nodes[k].entries
      ensures name in before.nodes[k].entries && left.nodes[k].entries[name] == before.nodes[k].entries[name]
    {
      WhatIsLeft(before, root, leaf, inode, k, name, left.nodes[k].entries[name]);
    }
    forall k, name | k in before.nodes && name in before.nodes[k].entries
      ensures name in left.nodes[k].entries <==> !IsBelow(before, inode, k) && (k, name) != (root, leaf)
    {
      WhatIsLeft(before, root, leaf, inode, k, name, before.nodes[k].entries[name]);
    }
  }

  /** One cleanup of a workspace, from the file systems it meets to the one it leaves,
      wherever directories form trees and names denote something. */
  method CleanUp(before: Fs, after: Fs, effectiveUser: nat, root: Inode, leaf: string, inode: Inode, owner: nat)
    returns (outcome: CleanupOutcome, left: Fs)
    requires AreTrees(before) && AreTrees(after) && NamesDenote(after)
    ensures var scans :=
        owner == effectiveUser && IsWorkspaceAt(before, root, leaf, inode, owner) && IsOneReadableTree(before, inode);
      var rechecks :=
        && IsWorkspaceAt(after, root, leaf, inode, owner) && ShowsTheSame(before, after, inode)
        && IsReadable(after, inode);
      && (!scans ==> outcome == RefusedBeforeScan && left == before)
      && (scans && !rechecks ==> outcome == RefusedChanged && left == after)
      && (scans && rechecks && LetsEverythingGo(after, root, leaf, inode) ==>
            outcome == Cleaned && LacksWorkspace(after, left, root, leaf, inode))
      && (scans && rechecks && !LetsEverythingGo(after, root, leaf, inode) ==>
            outcome == StoppedMidway && LacksOnlyInside(after, left, inode))
  {
    ghost var shape := TreesHaveShape(before);
    ghost var shapeAfter := TreesHaveShape(after);
    ClosedMeans(after);
    var kernel := new Kernel(before, effectiveUser);
    var workspace := new ArtifactWorkspace(root, leaf, inode, owner);
    outcome := workspace.Cleanup(kernel, after, shape, shapeAfter);
    left := kernel.fs;
    OutcomeMeans(before, after, effectiveUser, root, leaf, inode, owner, true, true);
    if outcome.Cleaned? {
      GoneIsLacking(after, root, leaf, inode);
    } else if outcome.StoppedMidway? {
      StoppedIsInside(after, left, inode);
    }
  }
}
