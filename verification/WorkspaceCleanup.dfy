/**
 Removal of an invocation-owned artifact workspace: the directory tree is read
 into a plan, the whole plan is rechecked, and only then are its names removed
 in post-order, each one rechecked again just before it goes.
 */
module WorkspaceCleanup {
  import opened Wrappers
  import opened FileSystem

  const WORKSPACE_MODE: nat := 0x1C0  // 0700

  /** One planned name; a directory also retains a descriptor and its contents. */
  datatype Plan = Plan(leaf: string, expected: Identity, descriptor: Option<Inode>, children: seq<Plan>) {
    predicate ForDirectory() { expected.kind.Directory? }
  }

  predicate DescriptorUnchanged(fs: Fs, plan: Plan) {
    plan.ForDirectory() && plan.descriptor.Some? && Status(fs, plan.descriptor.value) == Some(plan.expected)
  }

  predicate EntryUnchanged(fs: Fs, parent: Plan, entry: Plan) {
    && DescriptorUnchanged(fs, parent)
    && StatusAt(fs, parent.descriptor.value, entry.leaf) == Some(entry.expected)
    && (entry.ForDirectory() ==> DescriptorUnchanged(fs, entry))
  }

  ghost predicate DistinctLeaves(children: seq<Plan>) {
    forall i, j :: 0 <= i < j < |children| ==> children[i].leaf != children[j].leaf
  }

  ghost function Leaves(children: seq<Plan>): set<string> {
    set c | c in children :: c.leaf
  }

  /** What the full recheck asks of the tree below a planned directory. */
  ghost predicate PlanUnchanged(fs: Fs, plan: Plan)
    decreases plan
  {
    && DescriptorUnchanged(fs, plan)
    && DistinctLeaves(plan.children)
    && Leaves(plan.children) == fs.nodes[plan.expected.inode].entries.Keys
    && forall c | c in plan.children :: EntryUnchanged(fs, plan, c) && (c.ForDirectory() ==> PlanUnchanged(fs, c))
  }

  /** Every planned directory can be opened again for the rescan. */
  ghost predicate PlanReadable(fs: Fs, plan: Plan) {
    forall k | k in Keys(plan) :: k in fs.nodes && fs.nodes[k].readable
  }

  // ----- what the tree below a directory looks like, without any plan -----

  ghost predicate Reachable(fs: Fs, dir: Inode, inner: Inode) {
    exists path :: Walk(fs, dir, path) == Some(Identity(inner, Directory))
  }

  /** Both file systems show the same tree below `dir`: the same names, at every
      depth, denoting the same inodes with the same types. */
  ghost predicate SameTree(before: Fs, after: Fs, dir: Inode) {
    forall path :: Walk(before, dir, path) == Walk(after, dir, path)
  }

  /** Every directory in the tree below `dir` can be opened for reading. */
  ghost predicate TreeReadable(fs: Fs, dir: Inode) {
    forall k | Reachable(fs, dir, k) :: fs.nodes[k].readable
  }

  /** Directories form a tree: each one has a single name, one level down.
      (Kernels refuse hard links to directories.)  `bound` limits the depth. */
  datatype Shape = Shape(up: map<Inode, (Inode, string)>, depth: map<Inode, nat>, bound: nat)

  ghost predicate TreeShaped(fs: Fs, shape: Shape) {
    && (forall dir :: IsDirectory(fs, dir) ==> dir in shape.depth && shape.depth[dir] <= shape.bound)
    && (forall dir, name :: IsDirectory(fs, dir) && name in fs.nodes[dir].entries ==>
          OneLevelDown(fs, shape, dir, name))
  }

  ghost predicate OneLevelDown(fs: Fs, shape: Shape, dir: Inode, name: string)
    requires IsDirectory(fs, dir) && name in fs.nodes[dir].entries
  {
    var child := fs.nodes[dir].entries[name];
    IsDirectory(fs, child) ==>
      && child in shape.up && shape.up[child] == (dir, name)
      && dir in shape.depth && child in shape.depth && shape.depth[child] == shape.depth[dir] + 1
  }

  // ----- the directories of a plan -----

  /** The inodes of the directories planned for removal, the top one included. */
  ghost function Keys(plan: Plan): set<Inode>
    decreases plan
  {
    {plan.expected.inode} + set c, k | c in plan.children && c.ForDirectory() && k in Keys(c) :: k
  }

  ghost function KeysOfAll(children: seq<Plan>): set<Inode> {
    set c, k | c in children && c.ForDirectory() && k in Keys(c) :: k
  }

  /** No directory is planned twice. */
  ghost predicate Separated(plan: Plan)
    decreases plan
  {
    && plan.expected.inode !in KeysOfAll(plan.children)
    && (forall i, j | 0 <= i < j < |plan.children| ::
          plan.children[i].ForDirectory() && plan.children[j].ForDirectory() ==>
          Keys(plan.children[i]) !! Keys(plan.children[j]))
    && (forall c | c in plan.children && c.ForDirectory() :: Separated(c))
  }

  /** Every planned name may be taken out of its directory. */
  ghost predicate Removable(fs: Fs, plan: Plan)
    decreases plan
  {
    forall c | c in plan.children ::
      Detachable(fs, plan.expected.inode, c.leaf) && (c.ForDirectory() ==> Removable(fs, c))
  }

  /** Outside `keys` the two file systems agree; inside, only names went away. */
  ghost predicate OnlyRemoved(before: Fs, after: Fs, keys: set<Inode>) {
    && after.nodes.Keys == before.nodes.Keys
    && after.mounts == before.mounts
    && after.cacheRoot == before.cacheRoot
    && forall k | k in before.nodes ::
         && after.nodes[k] == before.nodes[k].(entries := after.nodes[k].entries)
         && (k !in keys ==> after.nodes[k].entries == before.nodes[k].entries)
         && Submap(after.nodes[k].entries, before.nodes[k].entries)
  }

  /** The names planned for removal, each with its directory. */
  ghost function PlannedNames(plan: Plan): set<(Inode, string)>
    decreases plan
  {
    (set c | c in plan.children :: (plan.expected.inode, c.leaf))
    + set c, n | c in plan.children && c.ForDirectory() && n in PlannedNames(c) :: n
  }

  /** Every name that is gone is one of `names`. */
  ghost predicate OnlyNamesGone(before: Fs, after: Fs, names: set<(Inode, string)>) {
    forall k, name | k in before.nodes && name in before.nodes[k].entries ::
      (k in after.nodes && name in after.nodes[k].entries) || (k, name) in names
  }

  lemma NamesGoneTrans(a: Fs, b: Fs, c: Fs, names: set<(Inode, string)>)
    requires OnlyNamesGone(a, b, names) && OnlyNamesGone(b, c, names)
    ensures OnlyNamesGone(a, c, names)
  {
  }

  ghost predicate Submap(small: map<string, Inode>, large: map<string, Inode>) {
    forall name | name in small :: name in large && small[name] == large[name]
  }

  /** The file system with every directory in `keys` emptied. */
  ghost function Emptied(fs: Fs, keys: set<Inode>): Fs {
    fs.(nodes := map k | k in fs.nodes :: if k in keys then fs.nodes[k].(entries := map[]) else fs.nodes[k])
  }

  // ----- the recheck sees every difference -----

  lemma {:induction false} WalksAgree(before: Fs, after: Fs, plan: Plan, path: seq<string>)
    requires PlanUnchanged(before, plan) && PlanUnchanged(after, plan)
    ensures Walk(before, plan.expected.inode, path) == Walk(after, plan.expected.inode, path)
    decreases plan
  {
    if path != [] && path[0] in Leaves(plan.children) {
      var c :| c in plan.children && c.leaf == path[0];
      assert EntryUnchanged(before, plan, c) && EntryUnchanged(after, plan, c);
      if |path| > 1 && c.ForDirectory() {
        WalksAgree(before, after, c, path[1..]);
      }
    }
  }

  lemma {:induction false} SameTreeKeepsPlan(before: Fs, after: Fs, plan: Plan)
    requires Closed(after) && PlanUnchanged(before, plan)
    requires SameTree(before, after, plan.expected.inode)
    ensures PlanUnchanged(after, plan)
    decreases plan
  {
    var dir := plan.expected.inode;
    assert Walk(before, dir, []) == Walk(after, dir, []);
    forall name ensures StatusAt(before, dir, name) == StatusAt(after, dir, name) {
      WalkName(before, dir, name);
      WalkName(after, dir, name);
      assert Walk(before, dir, [name]) == Walk(after, dir, [name]);
    }
    forall c | c in plan.children
      ensures EntryUnchanged(after, plan, c) && (c.ForDirectory() ==> PlanUnchanged(after, c))
    {
      assert EntryUnchanged(before, plan, c);
      if c.ForDirectory() {
        forall path ensures Walk(before, c.expected.inode, path) == Walk(after, c.expected.inode, path) {
          WalkStep(before, dir, c.leaf, path);
          WalkStep(after, dir, c.leaf, path);
          assert Walk(before, dir, [c.leaf] + path) == Walk(after, dir, [c.leaf] + path);
        }
        SameTreeKeepsPlan(before, after, c);
      }
    }
    forall name ensures name in Leaves(plan.children) <==> name in after.nodes[dir].entries {
      if name in after.nodes[dir].entries {
        assert Lookup(after, dir, name).Some?;
        assert StatusAt(before, dir, name).Some?;
      }
      if name in Leaves(plan.children) {
        var c :| c in plan.children && c.leaf == name;
        assert EntryUnchanged(before, plan, c);
        assert StatusAt(after, dir, name).Some?;
      }
    }
  }

  lemma SameTreeIsExact(before: Fs, after: Fs, plan: Plan)
    requires Closed(after) && PlanUnchanged(before, plan)
    ensures PlanUnchanged(after, plan) <==> SameTree(before, after, plan.expected.inode)
  {
    if PlanUnchanged(after, plan) {
      forall path ensures Walk(before, plan.expected.inode, path) == Walk(after, plan.expected.inode, path) {
        WalksAgree(before, after, plan, path);
      }
    }
    if SameTree(before, after, plan.expected.inode) {
      SameTreeKeepsPlan(before, after, plan);
    }
  }

  // ----- the planned directories are the reachable ones -----

  lemma {:induction false} ReachablePlanned(fs: Fs, plan: Plan, path: seq<string>, inner: Inode)
    requires PlanUnchanged(fs, plan)
    requires Walk(fs, plan.expected.inode, path) == Some(Identity(inner, Directory))
    ensures inner in Keys(plan)
    decreases plan
  {
    if path != [] {
      var c :| c in plan.children && c.leaf == path[0];
      assert EntryUnchanged(fs, plan, c);
      if c.ForDirectory() {
        ReachablePlanned(fs, c, path[1..], inner);
      }
    }
  }

  lemma {:induction false} PlannedReachable(fs: Fs, plan: Plan, inner: Inode) returns (path: seq<string>)
    requires PlanUnchanged(fs, plan) && inner in Keys(plan)
    ensures Walk(fs, plan.expected.inode, path) == Some(Identity(inner, Directory))
    decreases plan
  {
    if inner == plan.expected.inode {
      path := [];
    } else {
      var c :| c in plan.children && c.ForDirectory() && inner in Keys(c);
      assert EntryUnchanged(fs, plan, c);
      var rest := PlannedReachable(fs, c, inner);
      WalkStep(fs, plan.expected.inode, c.leaf, rest);
      path := [c.leaf] + rest;
    }
  }

  lemma PlannedAreReachable(fs: Fs, plan: Plan)
    requires PlanUnchanged(fs, plan)
    ensures forall k :: k in Keys(plan) <==> Reachable(fs, plan.expected.inode, k)
  {
    forall k ensures k in Keys(plan) <==> Reachable(fs, plan.expected.inode, k) {
      if k in Keys(plan) {
        var path := PlannedReachable(fs, plan, k);
      }
      if Reachable(fs, plan.expected.inode, k) {
        var path :| Walk(fs, plan.expected.inode, path) == Some(Identity(k, Directory));
        ReachablePlanned(fs, plan, path, k);
      }
    }
  }

  /** A plan taken from `before` survives the recheck on `after` exactly when no
      name anywhere in the tree was added, removed, renamed or replaced, and every
      directory of the tree can still be read. */
  lemma RecheckIsExact(before: Fs, after: Fs, plan: Plan)
    requires Closed(after) && PlanUnchanged(before, plan)
    ensures PlanUnchanged(after, plan) && PlanReadable(after, plan) <==>
      SameTree(before, after, plan.expected.inode) && TreeReadable(after, plan.expected.inode)
  {
    SameTreeIsExact(before, after, plan);
    if PlanUnchanged(after, plan) {
      ReadableMeans(after, plan);
    }
  }

  lemma ReadableMeans(fs: Fs, plan: Plan)
    requires PlanUnchanged(fs, plan)
    ensures PlanReadable(fs, plan) <==> TreeReadable(fs, plan.expected.inode)
  {
    PlannedAreReachable(fs, plan);
    forall k | k in Keys(plan) ensures k in fs.nodes {
      assert Reachable(fs, plan.expected.inode, k);
      var path :| Walk(fs, plan.expected.inode, path) == Some(Identity(k, Directory));
    }
  }

  // ----- a tree plans no directory twice -----

  /** No planned directory is covered by a mount. */
  ghost predicate Uncovered(fs: Fs, plan: Plan)
    decreases plan
  {
    forall c | c in plan.children && c.ForDirectory() :: (plan.expected.inode, c.leaf) !in fs.mounts && Uncovered(fs, c)
  }

  lemma {:induction false} RemovableIsUncovered(fs: Fs, plan: Plan)
    requires Removable(fs, plan)
    ensures Uncovered(fs, plan)
    decreases plan
  {
    forall c | c in plan.children && c.ForDirectory()
      ensures (plan.expected.inode, c.leaf) !in fs.mounts && Uncovered(fs, c)
    {
      assert Detachable(fs, plan.expected.inode, c.leaf);
      RemovableIsUncovered(fs, c);
    }
  }

  /** The directory `steps` levels above `dir`. */
  ghost function Climb(shape: Shape, dir: Inode, steps: nat): Inode
    decreases steps
  {
    if steps == 0 || dir !in shape.up then dir else Climb(shape, shape.up[dir].0, steps - 1)
  }

  lemma {:induction false} ClimbOneMore(shape: Shape, dir: Inode, steps: nat)
    requires Climb(shape, dir, steps) in shape.up
    ensures Climb(shape, dir, steps + 1) == shape.up[Climb(shape, dir, steps)].0
    decreases steps
  {
    if steps > 0 && dir in shape.up {
      ClimbOneMore(shape, shape.up[dir].0, steps - 1);
    }
  }

  lemma PlannedChild(fs: Fs, shape: Shape, plan: Plan, c: Plan)
    requires TreeShaped(fs, shape) && PlanUnchanged(fs, plan) && Uncovered(fs, plan)
    requires c in plan.children && c.ForDirectory()
    ensures PlanUnchanged(fs, c) && Uncovered(fs, c)
    ensures c.expected.inode in shape.up && shape.up[c.expected.inode] == (plan.expected.inode, c.leaf)
    ensures plan.expected.inode in shape.depth && c.expected.inode in shape.depth
    ensures shape.depth[c.expected.inode] == shape.depth[plan.expected.inode] + 1
  {
    assert EntryUnchanged(fs, plan, c);
    assert OneLevelDown(fs, shape, plan.expected.inode, c.leaf);
  }

  /** `inner` lies below `dir`, and climbing from it leads there. */
  ghost predicate LiesBelow(shape: Shape, dir: Inode, inner: Inode) {
    && inner in shape.depth && dir in shape.depth && shape.depth[inner] >= shape.depth[dir]
    && Climb(shape, inner, shape.depth[inner] - shape.depth[dir]) == dir
  }

  lemma BelowParent(shape: Shape, parent: Inode, leaf: string, dir: Inode, inner: Inode)
    requires LiesBelow(shape, dir, inner) && dir in shape.up && shape.up[dir] == (parent, leaf)
    requires parent in shape.depth && shape.depth[dir] == shape.depth[parent] + 1
    ensures LiesBelow(shape, parent, inner)
  {
    ClimbOneMore(shape, inner, shape.depth[inner] - shape.depth[dir]);
  }

  lemma PlannedTop(fs: Fs, shape: Shape, plan: Plan)
    requires TreeShaped(fs, shape) && PlanUnchanged(fs, plan)
    ensures plan.expected.inode in shape.depth
  {
  }

  lemma {:induction false} PlannedBelow(fs: Fs, shape: Shape, plan: Plan, inner: Inode)
    requires TreeShaped(fs, shape) && PlanUnchanged(fs, plan) && Uncovered(fs, plan)
    requires inner in Keys(plan)
    ensures LiesBelow(shape, plan.expected.inode, inner)
    decreases plan
  {
    if inner != plan.expected.inode {
      var c :| c in plan.children && c.ForDirectory() && inner in Keys(c);
      PlannedChild(fs, shape, plan, c);
      PlannedBelow(fs, shape, c, inner);
      BelowParent(shape, plan.expected.inode, c.leaf, c.expected.inode, inner);
    } else {
      PlannedTop(fs, shape, plan);
    }
  }

  lemma SiblingsApart(fs: Fs, shape: Shape, plan: Plan, a: Plan, b: Plan, k: Inode)
    requires TreeShaped(fs, shape) && PlanUnchanged(fs, plan) && Uncovered(fs, plan)
    requires a in plan.children && a.ForDirectory() && b in plan.children && b.ForDirectory()
    requires a.leaf != b.leaf && k in Keys(a)
    ensures k !in Keys(b)
  {
    PlannedChild(fs, shape, plan, a);
    PlannedChild(fs, shape, plan, b);
    PlannedBelow(fs, shape, a, k);
    if k in Keys(b) {
      PlannedBelow(fs, shape, b, k);
    }
  }

  lemma {:induction false} TreePlansOnce(fs: Fs, shape: Shape, plan: Plan)
    requires TreeShaped(fs, shape) && PlanUnchanged(fs, plan) && Uncovered(fs, plan)
    ensures Separated(plan)
    decreases plan
  {
    var children := plan.children;
    forall c, k | c in children && c.ForDirectory() && k in Keys(c) ensures k != plan.expected.inode {
      PlannedChild(fs, shape, plan, c);
      PlannedBelow(fs, shape, c, k);
    }
    forall i, j | 0 <= i < j < |children| && children[i].ForDirectory() && children[j].ForDirectory()
      ensures Keys(children[i]) !! Keys(children[j])
    {
      forall k | k in Keys(children[i]) ensures k !in Keys(children[j]) {
        SiblingsApart(fs, shape, plan, children[i], children[j], k);
      }
    }
    forall c | c in children && c.ForDirectory() ensures Separated(c) {
      PlannedChild(fs, shape, plan, c);
      TreePlansOnce(fs, shape, c);
    }
  }

  // ----- removing elsewhere disturbs nothing here -----

  lemma EntryFrame(before: Fs, after: Fs, keys: set<Inode>, parent: Plan, entry: Plan)
    requires OnlyRemoved(before, after, keys) && parent.expected.inode !in keys
    requires EntryUnchanged(before, parent, entry)
    ensures EntryUnchanged(after, parent, entry)
  {
  }

  lemma {:induction false} PlanFrame(before: Fs, after: Fs, keys: set<Inode>, plan: Plan)
    requires OnlyRemoved(before, after, keys) && keys !! Keys(plan)
    requires PlanUnchanged(before, plan)
    ensures PlanUnchanged(after, plan)
    decreases plan
  {
    assert plan.expected.inode in Keys(plan);
    forall c | c in plan.children
      ensures EntryUnchanged(after, plan, c) && (c.ForDirectory() ==> PlanUnchanged(after, c))
    {
      EntryFrame(before, after, keys, plan, c);
      if c.ForDirectory() {
        assert Keys(c) <= Keys(plan);
        PlanFrame(before, after, keys, c);
      }
    }
  }

  lemma {:induction false} RemovableFrame(before: Fs, after: Fs, keys: set<Inode>, plan: Plan)
    requires OnlyRemoved(before, after, keys)
    ensures Removable(before, plan) <==> Removable(after, plan)
    decreases plan
  {
    forall c | c in plan.children && c.ForDirectory()
      ensures Removable(before, c) <==> Removable(after, c)
    {
      RemovableFrame(before, after, keys, c);
    }
    forall c | c in plan.children
      ensures Detachable(before, plan.expected.inode, c.leaf) <==> Detachable(after, plan.expected.inode, c.leaf)
    {
      assert IsDirectory(before, plan.expected.inode) <==> IsDirectory(after, plan.expected.inode);
    }
  }

  // ----- preflight -----

  /** The scan accepts `name`: it has a status, and a directory is on the
      workspace's device, is no mount point and can be opened. */
  predicate Enterable(fs: Fs, dir: Inode, name: string, device: nat) {
    var found := StatusAt(fs, dir, name);
    && found.Some?
    && (found.value.kind.Directory? ==>
          found.value.inode.device == device && (dir, name) !in fs.mounts && fs.nodes[found.value.inode].readable)
  }

  ghost predicate Scannable(fs: Fs, dir: Inode, device: nat) {
    forall k, name :: Reachable(fs, dir, k) && name in fs.nodes[k].entries ==> Enterable(fs, k, name, device)
  }

  lemma ReachesItself(fs: Fs, dir: Inode)
    requires IsDirectory(fs, dir)
    ensures Reachable(fs, dir, dir)
  {
    assert Walk(fs, dir, []) == Some(Identity(dir, Directory));
  }

  lemma ScannableBelow(fs: Fs, dir: Inode, name: string, device: nat)
    requires Lookup(fs, dir, name).Some? && IsDirectory(fs, Lookup(fs, dir, name).value)
    requires Scannable(fs, dir, device)
    ensures Scannable(fs, Lookup(fs, dir, name).value, device)
  {
    var child := Lookup(fs, dir, name).value;
    forall k | Reachable(fs, child, k) ensures Reachable(fs, dir, k) {
      var path :| Walk(fs, child, path) == Some(Identity(k, Directory));
      WalkStep(fs, dir, name, path);
    }
  }

  /** The entry has been scanned, with all that is below it. */
  ghost predicate IsPlanned(fs: Fs, plan: Plan, device: nat, c: Plan) {
    && EntryUnchanged(fs, plan, c) && Enterable(fs, plan.expected.inode, c.leaf, device)
    && (c.ForDirectory() ==> PlanUnchanged(fs, c) && Scannable(fs, c.expected.inode, device) && Uncovered(fs, c))
  }

  ghost predicate ArePlanned(fs: Fs, plan: Plan, device: nat) {
    DistinctLeaves(plan.children) && forall c | c in plan.children :: IsPlanned(fs, plan, device, c)
  }

  lemma OneMorePlanned(fs: Fs, plan: Plan, device: nat, child: Plan)
    requires ArePlanned(fs, plan, device) && IsPlanned(fs, plan, device, child) && child.leaf !in Leaves(plan.children)
    ensures ArePlanned(fs, plan.(children := plan.children + [child]), device)
    ensures Leaves(plan.children + [child]) == Leaves(plan.children) + {child.leaf}
  {
  }

  lemma PlannedScannable(fs: Fs, plan: Plan, device: nat)
    requires ArePlanned(fs, plan, device) && DescriptorUnchanged(fs, plan)
    requires Leaves(plan.children) == fs.nodes[plan.expected.inode].entries.Keys
    ensures PlanUnchanged(fs, plan) && Uncovered(fs, plan) && Scannable(fs, plan.expected.inode, device)
  {
    var dir := plan.expected.inode;
    forall k, name | Reachable(fs, dir, k) && name in fs.nodes[k].entries
      ensures Enterable(fs, k, name, device)
    {
      var path :| Walk(fs, dir, path) == Some(Identity(k, Directory));
      if path != [] {
        var c :| c in plan.children && c.leaf == path[0];
        assert IsPlanned(fs, plan, device, c);
        assert Walk(fs, c.expected.inode, path[1..]) == Some(Identity(k, Directory));
        assert c.ForDirectory();
        assert Reachable(fs, c.expected.inode, k);
      }
    }
  }

  /** Reads the tree below `dir` into a plan.  It succeeds exactly when every
      directory below can be scanned without crossing a mount, and the plan then
      describes the tree. */
  method PreflightDirectoryContents(kernel: Kernel, dir: Inode, expected: Identity, device: nat, ghost shape: Shape)
    returns (r: Option<Plan>)
    requires TreeShaped(kernel.fs, shape) && IsDirectory(kernel.fs, dir)
    ensures r.Some? <==>
      && kernel.fs.nodes[dir].readable && Status(kernel.fs, dir) == Some(expected)
      && Scannable(kernel.fs, dir, device)
    ensures r.Some? ==>
      && r.value.expected == expected && PlanUnchanged(kernel.fs, r.value) && Uncovered(kernel.fs, r.value)
    decreases shape.bound - shape.depth[dir]
  {
    var fs := kernel.fs;
    if !fs.nodes[dir].readable || Status(fs, dir) != Some(expected) {
      return None;
    }
    ReachesItself(fs, dir);
    var plan := Plan("", expected, Some(dir), []);
    var stream := fs.nodes[dir].entries.Keys;
    while stream != {}
      invariant stream <= fs.nodes[dir].entries.Keys
      invariant plan == Plan("", expected, Some(dir), plan.children)
      invariant Leaves(plan.children) == fs.nodes[dir].entries.Keys - stream
      invariant ArePlanned(fs, plan, device)
    {
      var name :| name in stream;
      stream := stream - {name};
      var observed := StatusAt(fs, dir, name);
      if observed.None? {
        return None;
      }
      var child := Plan(name, observed.value, None, []);
      if observed.value.kind.Directory? {
        if !Enterable(fs, dir, name, device) {
          return None;
        }
        assert OneLevelDown(fs, shape, dir, name);
        var inner := PreflightDirectoryContents(kernel, observed.value.inode, observed.value, device, shape);
        if inner.None? {
          if Scannable(fs, dir, device) {
            ScannableBelow(fs, dir, name, device);
          }
          return None;
        }
        child := inner.value.(leaf := name);
      }
      OneMorePlanned(fs, plan, device, child);
      plan := plan.(children := plan.children + [child]);
    }
    PlannedScannable(fs, plan, device);
    r := Some(plan);
  }

  /** The planned entries by name, unless two have the same one. */
  method IndexChildren(children: seq<Plan>) returns (byLeaf: Option<map<string, Plan>>)
    ensures byLeaf.Some? <==> DistinctLeaves(children)
    ensures byLeaf.Some? ==>
      byLeaf.value.Keys == Leaves(children) && forall c | c in children :: byLeaf.value[c.leaf] == c
  {
    var remaining: map<string, Plan> := map[];
    for i := 0 to |children|
      invariant remaining.Keys == Leaves(children[..i])
      invariant DistinctLeaves(children[..i])
      invariant forall j | 0 <= j < i :: children[j].leaf in remaining && remaining[children[j].leaf] == children[j]
    {
      var entry := children[i];
      assert children[..i + 1] == children[..i] + [entry];
      if entry.leaf in remaining {
        assert exists j :: 0 <= j < i && children[j].leaf == entry.leaf;
        return None;
      }
      remaining := remaining[entry.leaf := entry];
    }
    assert children[..|children|] == children;
    byLeaf := Some(remaining);
  }

  lemma ReadableParts(fs: Fs, plan: Plan)
    ensures PlanReadable(fs, plan) <==>
      && plan.expected.inode in fs.nodes && fs.nodes[plan.expected.inode].readable
      && forall c | c in plan.children && c.ForDirectory() :: PlanReadable(fs, c)
  {
    assert plan.expected.inode in Keys(plan);
    forall c | c in plan.children && c.ForDirectory() ensures Keys(c) <= Keys(plan) {
    }
  }

  /** The full recheck, directory by directory, before anything is removed.  Each
      directory is opened and read again. */
  method RequireCleanupPlanUnchanged(kernel: Kernel, plan: Plan) returns (ok: bool)
    ensures ok == (PlanUnchanged(kernel.fs, plan) && PlanReadable(kernel.fs, plan))
    decreases plan
  {
    var fs := kernel.fs;
    if !DescriptorUnchanged(fs, plan) {
      return false;
    }
    var byLeaf := IndexChildren(plan.children);
    if byLeaf.None? {
      return false;
    }
    var remaining := byLeaf.value;
    ReadableParts(fs, plan);
    if !fs.nodes[plan.expected.inode].readable {
      return false;
    }
    var names := fs.nodes[plan.expected.inode].entries.Keys;
    var stream := names;
    while stream != {}
      invariant stream <= names
      invariant names - stream <= Leaves(plan.children)
      invariant remaining.Keys == Leaves(plan.children) - (names - stream)
      invariant forall c | c in plan.children && c.leaf in remaining :: remaining[c.leaf] == c
      invariant forall c | c in plan.children && c.leaf in names && c.leaf !in stream ::
        EntryUnchanged(fs, plan, c) && (c.ForDirectory() ==> PlanUnchanged(fs, c) && PlanReadable(fs, c))
    {
      var name :| name in stream;
      stream := stream - {name};
      if name !in remaining {
        return false;
      }
      var entry := remaining[name];
      if !EntryUnchanged(fs, plan, entry) {
        return false;
      }
      if entry.ForDirectory() {
        var same := RequireCleanupPlanUnchanged(kernel, entry);
        if !same {
          return false;
        }
      }
      remaining := remaining - {name};
    }
    ok := remaining == map[];
    if !ok {
      assert exists name :: name in remaining;
    }
  }

  // ----- removal, one planned name at a time -----

  /** `fs` with `leaves` taken out of `dir` and the directories in `keys` emptied. */
  ghost function Trimmed(fs: Fs, dir: Inode, leaves: set<string>, keys: set<Inode>): Fs {
    fs.(nodes := map k | k in fs.nodes ::
      if k == dir then fs.nodes[k].(entries := fs.nodes[k].entries - leaves)
      else if k in keys then fs.nodes[k].(entries := map[])
      else fs.nodes[k])
  }

  lemma TrimMore(fs: Fs, dir: Inode, leaves: set<string>, keys: set<Inode>, inner: set<Inode>, leaf: string)
    requires dir in fs.nodes && dir !in inner
    ensures Without(Emptied(Trimmed(fs, dir, leaves, keys), inner), dir, leaf)
      == Trimmed(fs, dir, leaves + {leaf}, keys + inner)
  {
    var entries := fs.nodes[dir].entries;
    assert entries - leaves - {leaf} == entries - (leaves + {leaf});
    assert Without(Emptied(Trimmed(fs, dir, leaves, keys), inner), dir, leaf).nodes
      == Trimmed(fs, dir, leaves + {leaf}, keys + inner).nodes;
  }

  /** The file system once the first `i` planned names of `plan` are gone. */
  ghost function Partly(fs: Fs, plan: Plan, i: nat): Fs
    requires i <= |plan.children|
  {
    Trimmed(fs, plan.expected.inode, Leaves(plan.children[..i]), KeysOfAll(plan.children[..i]))
  }

  lemma PartlyBegins(fs: Fs, plan: Plan)
    requires PlanUnchanged(fs, plan)
    ensures Partly(fs, plan, 0) == fs
  {
    assert KeysOfAll(plan.children[..0]) == {} && Leaves(plan.children[..0]) == {};
    var entries := fs.nodes[plan.expected.inode].entries;
    assert entries - Leaves(plan.children[..0]) == entries;
    assert Partly(fs, plan, 0).nodes == fs.nodes;
  }

  lemma PartlyEnds(fs: Fs, plan: Plan)
    requires PlanUnchanged(fs, plan)
    ensures Partly(fs, plan, |plan.children|) == Emptied(fs, Keys(plan))
  {
    assert plan.children[..|plan.children|] == plan.children;
    assert fs.nodes[plan.expected.inode].entries - Leaves(plan.children) == map[];
    assert Partly(fs, plan, |plan.children|).nodes == Emptied(fs, Keys(plan)).nodes;
  }

  lemma TrimmedOnlyRemoved(fs: Fs, dir: Inode, leaves: set<string>, keys: set<Inode>)
    ensures OnlyRemoved(fs, Trimmed(fs, dir, leaves, keys), {dir} + keys)
  {
  }

  lemma PartlyOnlyRemoved(fs: Fs, plan: Plan, i: nat)
    requires i <= |plan.children|
    ensures OnlyRemoved(fs, Partly(fs, plan, i), {plan.expected.inode} + KeysOfAll(plan.children[..i]))
  {
    var done := plan.children[..i];
    TrimmedOnlyRemoved(fs, plan.expected.inode, Leaves(done), KeysOfAll(done));
  }

  /** The directories changed so far are none of those below the next name. */
  lemma NextIsApart(plan: Plan, i: nat)
    requires i < |plan.children| && Separated(plan) && plan.children[i].ForDirectory()
    ensures ({plan.expected.inode} + KeysOfAll(plan.children[..i])) !! Keys(plan.children[i])
  {
    var c := plan.children[i];
    forall k | k in Keys(c) ensures k !in {plan.expected.inode} + KeysOfAll(plan.children[..i]) {
      assert k in KeysOfAll(plan.children);
    }
  }

  lemma NextNameIsThere(fs: Fs, plan: Plan, i: nat)
    requires i < |plan.children| && PlanUnchanged(fs, plan)
    ensures EntryUnchanged(Partly(fs, plan, i), plan, plan.children[i])
  {
    assert EntryUnchanged(fs, plan, plan.children[i]);
    assert plan.children[i].leaf !in Leaves(plan.children[..i]);
  }

  /** The next planned name is still as planned when its turn comes. */
  lemma NextHolds(fs: Fs, plan: Plan, i: nat)
    requires i < |plan.children| && PlanUnchanged(fs, plan) && Separated(plan)
    ensures EntryUnchanged(Partly(fs, plan, i), plan, plan.children[i])
    ensures plan.children[i].ForDirectory() ==> PlanUnchanged(Partly(fs, plan, i), plan.children[i])
  {
    NextNameIsThere(fs, plan, i);
    if plan.children[i].ForDirectory() {
      NextIsApart(plan, i);
      PartlyOnlyRemoved(fs, plan, i);
      PlanFrame(
        fs, Partly(fs, plan, i), {plan.expected.inode} + KeysOfAll(plan.children[..i]), plan.children[i]);
    }
  }

  ghost function KeysBelow(c: Plan): set<Inode> {
    if c.ForDirectory() then Keys(c) else {}
  }

  /** `Partly` just before the `i`th name itself is taken out: a directory has
      already lost its contents. */
  ghost function Ready(fs: Fs, plan: Plan, i: nat): Fs
    requires i < |plan.children|
  {
    Emptied(Partly(fs, plan, i), KeysBelow(plan.children[i]))
  }

  lemma ReadyHolds(fs: Fs, plan: Plan, i: nat)
    requires i < |plan.children| && PlanUnchanged(fs, plan) && Separated(plan)
    ensures EntryUnchanged(Ready(fs, plan, i), plan, plan.children[i])
    ensures var c := plan.children[i];
      c.ForDirectory() ==> Ready(fs, plan, i).nodes[c.expected.inode].entries == map[]
  {
    var c := plan.children[i];
    NextHolds(fs, plan, i);
    if c.ForDirectory() {
      NotInside(plan, c);
      ContentsOnlyGone(Partly(fs, plan, i), plan, c);
    } else {
      NothingEmptied(Partly(fs, plan, i));
    }
  }

  lemma NothingEmptied(fs: Fs)
    ensures Emptied(fs, {}) == fs
  {
    assert Emptied(fs, {}).nodes == fs.nodes;
  }

  /** Emptying what lies below an entry leaves the entry itself as planned. */
  lemma ContentsOnlyGone(now: Fs, plan: Plan, c: Plan)
    requires EntryUnchanged(now, plan, c) && c.ForDirectory() && plan.expected.inode !in Keys(c)
    ensures EntryUnchanged(Emptied(now, Keys(c)), plan, c)
    ensures Emptied(now, Keys(c)).nodes[c.expected.inode].entries == map[]
  {
  }

  lemma NotInside(plan: Plan, c: Plan)
    requires Separated(plan) && c in plan.children && c.ForDirectory()
    ensures plan.expected.inode !in Keys(c)
  {
    assert Keys(c) <= KeysOfAll(plan.children);
  }

  lemma PartlyStep(fs: Fs, plan: Plan, i: nat)
    requires i < |plan.children| && plan.expected.inode in fs.nodes && Separated(plan)
    ensures plan.expected.inode in Ready(fs, plan, i).nodes
    ensures Without(Ready(fs, plan, i), plan.expected.inode, plan.children[i].leaf) == Partly(fs, plan, i + 1)
  {
    var c := plan.children[i];
    var gone, more := plan.children[..i], plan.children[..i + 1];
    assert more == gone + [c];
    assert Leaves(more) == Leaves(gone) + {c.leaf};
    assert KeysOfAll(more) == KeysOfAll(gone) + KeysBelow(c);
    if c.ForDirectory() {
      NotInside(plan, c);
    }
    TrimMore(fs, plan.expected.inode, Leaves(gone), KeysOfAll(gone), KeysBelow(c), c.leaf);
  }

  // ----- the workspace object -----

  class ArtifactWorkspace {
    const root: Inode      // the trusted cache root's retained descriptor
    const leaf: string     // the workspace's name in the root
    const inode: Inode
    const owner: nat
    var descriptorOpen: bool
    var ownsPath: bool

    constructor (root: Inode, leaf: string, inode: Inode, owner: nat)
      ensures this.root == root && this.leaf == leaf && this.inode == inode && this.owner == owner
      ensures descriptorOpen && ownsPath
    {
      this.root, this.leaf, this.inode, this.owner := root, leaf, inode, owner;
      descriptorOpen, ownsPath := true, true;
    }

    predicate IdentityUnchanged(fs: Fs, effectiveUser: nat)
      reads this
    {
      ownsPath && descriptorOpen && WorkspaceInPlace(fs, root, leaf, inode, owner) && owner == effectiveUser
    }

    /** Removes the workspace.  `afterPreflight` is whatever the file system has
        become by the time the tree has been read: anything may happen to it in
        between, and nothing afterwards. */
    method Cleanup(kernel: Kernel, afterPreflight: Fs, ghost shape: Shape, ghost shapeAfter: Shape)
      returns (outcome: CleanupOutcome)
      requires TreeShaped(kernel.fs, shape)
      requires Closed(afterPreflight) && TreeShaped(afterPreflight, shapeAfter)
      modifies this, kernel
      ensures outcome == CleanupResult(
        old(kernel.fs), afterPreflight, kernel.effectiveUser, root, leaf, inode, owner,
        old(ownsPath), old(descriptorOpen))
      ensures outcome.AlreadyReleased? || outcome.RefusedBeforeScan? ==> kernel.fs == old(kernel.fs)
      ensures outcome.RefusedChanged? ==> kernel.fs == afterPreflight
      ensures outcome.StoppedMidway? ==>
        OnlyRemoved(afterPreflight, kernel.fs, DirectoriesBelow(afterPreflight, inode))
      ensures outcome.Cleaned? ==>
        && root in afterPreflight.nodes
        && kernel.fs == Without(Emptied(afterPreflight, DirectoriesBelow(afterPreflight, inode)), root, leaf)
      ensures if outcome.Cleaned? then !ownsPath && !descriptorOpen
        else ownsPath == old(ownsPath) && descriptorOpen == old(descriptorOpen)
    {
      if !ownsPath {
        return AlreadyReleased;
      }
      var user := kernel.effectiveUser;
      if !IdentityUnchanged(kernel.fs, user) {
        return RefusedBeforeScan;
      }
      ghost var before := kernel.fs;
      var preflight := PreflightDirectoryContents(kernel, inode, Identity(inode, Directory), inode.device, shape);
      if preflight.None? {
        return RefusedBeforeScan;
      }
      var plan := preflight.value;
      kernel.fs := afterPreflight;
      RecheckIsExact(before, afterPreflight, plan);
      if !IdentityUnchanged(kernel.fs, user) {
        return RefusedChanged;
      }
      var same := RequireCleanupPlanUnchanged(kernel, plan);
      if !same {
        return RefusedChanged;
      }
      var removed := RemoveWorkspace(kernel, plan, shapeAfter);
      if !removed {
        return StoppedMidway;
      }
      ownsPath, descriptorOpen := false, false;
      outcome := Cleaned;
    }

    /** The part of a cleanup after the recheck: everything below, then the
        workspace's own name. */
    method RemoveWorkspace(kernel: Kernel, plan: Plan, ghost shape: Shape) returns (ok: bool)
      requires TreeShaped(kernel.fs, shape) && PlanUnchanged(kernel.fs, plan) && plan.expected.inode == inode
      requires IdentityUnchanged(kernel.fs, kernel.effectiveUser)
      modifies kernel
      ensures ok == EveryNameDetachable(old(kernel.fs), root, leaf, inode)
      ensures !ok ==> OnlyRemoved(old(kernel.fs), kernel.fs, DirectoriesBelow(old(kernel.fs), inode))
      ensures ok ==>
        && root in old(kernel.fs).nodes
        && kernel.fs == Without(Emptied(old(kernel.fs), DirectoriesBelow(old(kernel.fs), inode)), root, leaf)
    {
      ghost var start, user := kernel.fs, kernel.effectiveUser;
      KeysAreBelow(start, plan);
      DetachableMeans(start, root, leaf, plan);
      if EveryNameDetachable(start, root, leaf, inode) {
        WorkspaceSettled(start, user, this, plan, shape);
        WorkspaceEmptied(start, user, this, plan);
      }
      var emptied := RemovePreflightedContents(kernel, this, plan, plan, []);
      if !emptied || !IdentityUnchanged(kernel.fs, kernel.effectiveUser) {
        return false;
      }
      ok := kernel.RemoveDirectory(root, leaf);
    }
  }

  datatype CleanupOutcome = AlreadyReleased | RefusedBeforeScan | RefusedChanged | StoppedMidway | Cleaned

  /** The directories in the tree below `dir`, itself included. */
  ghost function DirectoriesBelow(fs: Fs, dir: Inode): set<Inode> {
    set k | k in fs.nodes && Reachable(fs, dir, k)
  }

  /** Every name in the tree, and the name of the workspace itself, can go: no
      name is a mount point and every directory that holds a name is writable. */
  ghost predicate EveryNameDetachable(fs: Fs, root: Inode, leaf: string, inode: Inode) {
    && Detachable(fs, root, leaf)
    && forall k, name :: Reachable(fs, inode, k) && name in fs.nodes[k].entries ==> Detachable(fs, k, name)
  }

  /** How a cleanup ends, told without a plan: `before` is scanned, `after` is
      rechecked and then left alone. */
  ghost function CleanupResult(
    before: Fs, after: Fs, effectiveUser: nat, root: Inode, leaf: string, inode: Inode, owner: nat,
    ownsPath: bool, descriptorOpen: bool): CleanupOutcome
  {
    if !ownsPath then AlreadyReleased
    else if !descriptorOpen || owner != effectiveUser || !WorkspaceInPlace(before, root, leaf, inode, owner)
      || !before.nodes[inode].readable || !Scannable(before, inode, inode.device) then RefusedBeforeScan
    else if !WorkspaceInPlace(after, root, leaf, inode, owner) || !SameTree(before, after, inode)
      || !TreeReadable(after, inode) then RefusedChanged
    else if !EveryNameDetachable(after, root, leaf, inode) then StoppedMidway
    else Cleaned
  }

  /** The root is still the trusted cache root, and both the descriptor and the
      name of the workspace denote the directory that was created, with its
      owner and mode. */
  predicate WorkspaceInPlace(fs: Fs, root: Inode, leaf: string, inode: Inode, owner: nat) {
    && fs.cacheRoot == Some(root) && IsDirectory(fs, root) && fs.nodes[root].owner == owner
    && Status(fs, inode) == Some(Identity(inode, Directory))
    && fs.nodes[inode].owner == owner && fs.nodes[inode].mode == WORKSPACE_MODE
    && StatusAt(fs, root, leaf) == Some(Identity(inode, Directory))
  }

  predicate LineageUnchanged(fs: Fs, lineage: seq<(Plan, Plan)>) {
    forall pair | pair in lineage :: EntryUnchanged(fs, pair.0, pair.1)
  }

  /** The check made before every single removal. */
  predicate TargetUnchanged(
    fs: Fs, effectiveUser: nat, workspace: ArtifactWorkspace, top: Plan, lineage: seq<(Plan, Plan)>,
    parent: Plan, target: Plan)
    reads workspace
  {
    && workspace.IdentityUnchanged(fs, effectiveUser)
    && DescriptorUnchanged(fs, top)
    && LineageUnchanged(fs, lineage)
    && EntryUnchanged(fs, parent, target)
  }

  /** The checks outside `directory` hold, and none of them looks inside it. */
  ghost predicate AncestorsSettled(
    fs: Fs, effectiveUser: nat, workspace: ArtifactWorkspace, top: Plan, lineage: seq<(Plan, Plan)>, keys: set<Inode>)
    reads workspace
  {
    && workspace.IdentityUnchanged(fs, effectiveUser)
    && DescriptorUnchanged(fs, top)
    && LineageUnchanged(fs, lineage)
    && workspace.root !in keys
    && (forall pair | pair in lineage :: pair.0.expected.inode !in keys)
  }

  /** The tree is as planned, every name in it can go, and nothing is planned twice. */
  ghost predicate TreeSettled(fs: Fs, directory: Plan) {
    PlanUnchanged(fs, directory) && Separated(directory) && Removable(fs, directory)
  }

  lemma AncestorsFrame(
    before: Fs, after: Fs, effectiveUser: nat, workspace: ArtifactWorkspace, top: Plan,
    lineage: seq<(Plan, Plan)>, keys: set<Inode>)
    requires OnlyRemoved(before, after, keys)
    requires AncestorsSettled(before, effectiveUser, workspace, top, lineage, keys)
    ensures AncestorsSettled(after, effectiveUser, workspace, top, lineage, keys)
  {
    forall pair | pair in lineage ensures EntryUnchanged(after, pair.0, pair.1) {
      assert EntryUnchanged(before, pair.0, pair.1);
    }
  }

  lemma OnlyRemovedTrans(a: Fs, b: Fs, c: Fs, keys: set<Inode>)
    requires OnlyRemoved(a, b, keys) && OnlyRemoved(b, c, keys)
    ensures OnlyRemoved(a, c, keys)
  {
  }

  lemma OnlyRemovedMore(a: Fs, b: Fs, small: set<Inode>, keys: set<Inode>)
    requires OnlyRemoved(a, b, small) && small <= keys
    ensures OnlyRemoved(a, b, keys)
  {
  }

  lemma TurnTree(start: Fs, directory: Plan, i: nat)
    requires i < |directory.children| && TreeSettled(start, directory)
    ensures var now, entry := Partly(start, directory, i), directory.children[i];
      && OnlyRemoved(start, now, Keys(directory))
      && EntryUnchanged(now, directory, entry)
      && (entry.ForDirectory() ==> TreeSettled(now, entry))
  {
    var now, entry := Partly(start, directory, i), directory.children[i];
    NextHolds(start, directory, i);
    PartlyOnlyRemoved(start, directory, i);
    assert KeysOfAll(directory.children[..i]) <= KeysOfAll(directory.children);
    OnlyRemovedMore(start, now, {directory.expected.inode} + KeysOfAll(directory.children[..i]), Keys(directory));
    if entry.ForDirectory() {
      RemovableFrame(start, now, Keys(directory), entry);
    }
  }

  lemma LineageGrows(
    fs: Fs, effectiveUser: nat, workspace: ArtifactWorkspace, top: Plan, lineage: seq<(Plan, Plan)>,
    directory: Plan, entry: Plan, keys: set<Inode>)
    requires AncestorsSettled(fs, effectiveUser, workspace, top, lineage, keys)
    requires EntryUnchanged(fs, directory, entry)
    requires Keys(entry) <= keys && directory.expected.inode !in Keys(entry)
    ensures AncestorsSettled(fs, effectiveUser, workspace, top, lineage + [(directory, entry)], Keys(entry))
  {
  }

  /** Everything one turn of the removal loop needs in order to succeed. */
  ghost predicate EntrySettled(
    fs: Fs, effectiveUser: nat, workspace: ArtifactWorkspace, top: Plan, lineage: seq<(Plan, Plan)>,
    directory: Plan, entry: Plan)
    reads workspace
  {
    var ready := Emptied(fs, KeysBelow(entry));
    && TargetUnchanged(fs, effectiveUser, workspace, top, lineage, directory, entry)
    && TargetUnchanged(ready, effectiveUser, workspace, top, lineage, directory, entry)
    && directory.expected.inode in fs.nodes
    && if entry.ForDirectory() then
         && Settled(fs, effectiveUser, workspace, top, lineage + [(directory, entry)], entry)
         && CanRemoveDirectory(ready, directory.expected.inode, entry.leaf)
       else
         CanUnlink(ready, directory.expected.inode, entry.leaf)
  }

  lemma EmptiedOnlyRemoved(fs: Fs, keys: set<Inode>, more: set<Inode>)
    requires keys <= more
    ensures OnlyRemoved(fs, Emptied(fs, keys), more)
  {
  }

  lemma ReadyGoes(start: Fs, directory: Plan, i: nat)
    requires i < |directory.children| && TreeSettled(start, directory)
    ensures var ready, entry := Ready(start, directory, i), directory.children[i];
      && EntryUnchanged(ready, directory, entry)
      && (entry.ForDirectory() ==> CanRemoveDirectory(ready, directory.expected.inode, entry.leaf))
      && (!entry.ForDirectory() ==> CanUnlink(ready, directory.expected.inode, entry.leaf))
  {
    ReadyHolds(start, directory, i);
    assert Detachable(start, directory.expected.inode, directory.children[i].leaf);
  }

  lemma TurnSettled(
    start: Fs, effectiveUser: nat, workspace: ArtifactWorkspace, top: Plan, lineage: seq<(Plan, Plan)>,
    directory: Plan, i: nat)
    requires i < |directory.children| && TreeSettled(start, directory)
    requires AncestorsSettled(start, effectiveUser, workspace, top, lineage, Keys(directory))
    ensures EntrySettled(
      Partly(start, directory, i), effectiveUser, workspace, top, lineage, directory, directory.children[i])
  {
    var now, entry := Partly(start, directory, i), directory.children[i];
    var keys := Keys(directory);
    TurnTree(start, directory, i);
    AncestorsFrame(start, now, effectiveUser, workspace, top, lineage, keys);
    assert KeysBelow(entry) <= KeysOfAll(directory.children);
    EmptiedOnlyRemoved(now, KeysBelow(entry), keys);
    AncestorsFrame(now, Emptied(now, KeysBelow(entry)), effectiveUser, workspace, top, lineage, keys);
    ReadyGoes(start, directory, i);
    if entry.ForDirectory() {
      NotInside(directory, entry);
      LineageGrows(now, effectiveUser, workspace, top, lineage, directory, entry, keys);
    }
  }

  ghost predicate Settled(
    fs: Fs, effectiveUser: nat, workspace: ArtifactWorkspace, top: Plan, lineage: seq<(Plan, Plan)>, directory: Plan)
    reads workspace
  {
    TreeSettled(fs, directory) && AncestorsSettled(fs, effectiveUser, workspace, top, lineage, Keys(directory))
  }

  lemma TurnPlanned(
    start: Fs, effectiveUser: nat, workspace: ArtifactWorkspace, top: Plan, lineage: seq<(Plan, Plan)>,
    directory: Plan, i: nat)
    requires i < |directory.children| && Settled(start, effectiveUser, workspace, top, lineage, directory)
    ensures EntrySettled(
      Partly(start, directory, i), effectiveUser, workspace, top, lineage, directory, directory.children[i])
    ensures directory.expected.inode in Ready(start, directory, i).nodes
    ensures Without(Ready(start, directory, i), directory.expected.inode, directory.children[i].leaf)
      == Partly(start, directory, i + 1)
  {
    TurnSettled(start, effectiveUser, workspace, top, lineage, directory, i);
    PartlyStep(start, directory, i);
  }

  lemma RemovableMore(start: Fs, now: Fs, directory: Plan, i: nat)
    requires i < |directory.children| && OnlyRemoved(start, now, Keys(directory))
    requires Removable(start, directory.(children := directory.children[..i]))
    requires Detachable(now, directory.expected.inode, directory.children[i].leaf)
    requires directory.children[i].ForDirectory() ==> Removable(now, directory.children[i])
    ensures Removable(start, directory.(children := directory.children[..i + 1]))
  {
    RemovableFrame(start, now, Keys(directory), directory.children[i]);
    assert directory.children[..i + 1] == directory.children[..i] + [directory.children[i]];
  }

  /** What the removal loop has done after `i` turns. */
  ghost predicate HasRemoved(start: Fs, now: Fs, directory: Plan, i: nat, settled: bool)
    requires i <= |directory.children|
  {
    && OnlyRemoved(start, now, Keys(directory))
    && Removable(start, directory.(children := directory.children[..i]))
    && (settled ==> TreeSettled(start, directory) && now == Partly(start, directory, i))
  }

  lemma NothingRemovedYet(start: Fs, directory: Plan, settled: bool)
    requires settled ==> TreeSettled(start, directory)
    ensures HasRemoved(start, start, directory, 0, settled)
  {
    if settled {
      PartlyBegins(start, directory);
    }
  }

  lemma OneMoreRemoved(start: Fs, now: Fs, next: Fs, directory: Plan, i: nat, settled: bool)
    requires i < |directory.children| && HasRemoved(start, now, directory, i, settled)
    requires OnlyRemoved(start, next, Keys(directory))
    requires Detachable(now, directory.expected.inode, directory.children[i].leaf)
    requires directory.children[i].ForDirectory() ==> Removable(now, directory.children[i])
    requires settled ==> next == Partly(start, directory, i + 1)
    ensures HasRemoved(start, next, directory, i + 1, settled)
  {
    RemovableMore(start, now, directory, i);
  }

  lemma AllRemoved(start: Fs, now: Fs, directory: Plan, settled: bool)
    requires HasRemoved(start, now, directory, |directory.children|, settled)
    ensures Removable(start, directory) && (settled ==> now == Emptied(start, Keys(directory)))
  {
    assert directory.children[..|directory.children|] == directory.children;
    if settled {
      PartlyEnds(start, directory);
    }
  }

  /** Removes the planned contents of `directory`.  Whatever happens, only
      planned names go away.  When the tree is as planned, the run completes and
      empties every planned directory exactly when every name is removable. */
  method RemovePreflightedContents(
    kernel: Kernel, workspace: ArtifactWorkspace, top: Plan, directory: Plan, lineage: seq<(Plan, Plan)>)
    returns (ok: bool)
    modifies kernel
    ensures OnlyRemoved(old(kernel.fs), kernel.fs, Keys(directory))
    ensures OnlyNamesGone(old(kernel.fs), kernel.fs, PlannedNames(directory))
    ensures ok ==> Removable(old(kernel.fs), directory)
    ensures Settled(old(kernel.fs), kernel.effectiveUser, workspace, top, lineage, directory) ==>
      ok && kernel.fs == Emptied(old(kernel.fs), Keys(directory))
    decreases directory, 2
  {
    ghost var start := kernel.fs;
    ghost var settled := Settled(start, kernel.effectiveUser, workspace, top, lineage, directory);
    NothingRemovedYet(start, directory, settled);
    for i := 0 to |directory.children|
      invariant HasRemoved(start, kernel.fs, directory, i, settled)
      invariant OnlyNamesGone(start, kernel.fs, PlannedNames(directory))
    {
      var entry := directory.children[i];
      ghost var now := kernel.fs;
      if settled {
        TurnPlanned(start, kernel.effectiveUser, workspace, top, lineage, directory, i);
      }
      var removed := RemovePreflightedEntry(kernel, workspace, top, directory, entry, lineage);
      OnlyRemovedTrans(start, now, kernel.fs, Keys(directory));
      NamesGoneTrans(start, now, kernel.fs, PlannedNames(directory));
      if !removed {
        return false;
      }
      OneMoreRemoved(start, now, kernel.fs, directory, i, settled);
    }
    AllRemoved(start, kernel.fs, directory, settled);
    ok := true;
  }

  /** One turn of the removal loop: recheck, empty a directory, recheck, remove. */
  method RemovePreflightedEntry(
    kernel: Kernel, workspace: ArtifactWorkspace, top: Plan, directory: Plan, entry: Plan,
    lineage: seq<(Plan, Plan)>)
    returns (ok: bool)
    requires entry in directory.children
    modifies kernel
    ensures OnlyRemoved(old(kernel.fs), kernel.fs, Keys(directory))
    ensures OnlyNamesGone(old(kernel.fs), kernel.fs, PlannedNames(directory))
    ensures ok ==>
      && Detachable(old(kernel.fs), directory.expected.inode, entry.leaf)
      && (entry.ForDirectory() ==> Removable(old(kernel.fs), entry))
    ensures EntrySettled(old(kernel.fs), kernel.effectiveUser, workspace, top, lineage, directory, entry) ==>
      && ok
      && directory.expected.inode in old(kernel.fs).nodes
      && kernel.fs == Without(Emptied(old(kernel.fs), KeysBelow(entry)), directory.expected.inode, entry.leaf)
    decreases directory, 1
  {
    ghost var before := kernel.fs;
    if !TargetUnchanged(kernel.fs, kernel.effectiveUser, workspace, top, lineage, directory, entry) {
      return false;
    }
    ok := EmptyEntry(kernel, workspace, top, directory, entry, lineage);
    if !ok {
      return false;
    }
    ghost var now := kernel.fs;
    if entry.ForDirectory() {
      ok := kernel.RemoveDirectory(directory.descriptor.value, entry.leaf);
    } else {
      ok := kernel.Unlink(directory.descriptor.value, entry.leaf);
    }
    NameGone(before, now, kernel.fs, directory, entry, ok);
  }

  /** Empties an entry that is a directory, then rechecks it. */
  method EmptyEntry(
    kernel: Kernel, workspace: ArtifactWorkspace, top: Plan, directory: Plan, entry: Plan,
    lineage: seq<(Plan, Plan)>)
    returns (ok: bool)
    requires entry in directory.children
    modifies kernel
    ensures OnlyRemoved(old(kernel.fs), kernel.fs, Keys(directory))
    ensures OnlyNamesGone(old(kernel.fs), kernel.fs, PlannedNames(directory))
    ensures ok && entry.ForDirectory() ==>
      && Removable(old(kernel.fs), entry)
      && TargetUnchanged(kernel.fs, kernel.effectiveUser, workspace, top, lineage, directory, entry)
    ensures !entry.ForDirectory() ==> ok && kernel.fs == old(kernel.fs)
    ensures EntrySettled(old(kernel.fs), kernel.effectiveUser, workspace, top, lineage, directory, entry) ==>
      ok && kernel.fs == Emptied(old(kernel.fs), KeysBelow(entry))
    decreases directory, 0
  {
    ghost var before := kernel.fs;
    if !entry.ForDirectory() {
      NothingEmptied(before);
      return true;
    }
    ok := RemovePreflightedContents(kernel, workspace, top, entry, lineage + [(directory, entry)]);
    InsideDirectory(before, kernel.fs, directory, entry);
    ok := ok && TargetUnchanged(kernel.fs, kernel.effectiveUser, workspace, top, lineage, directory, entry);
  }

  lemma InsideDirectory(before: Fs, after: Fs, directory: Plan, entry: Plan)
    requires entry in directory.children && entry.ForDirectory()
    requires OnlyRemoved(before, after, Keys(entry)) && OnlyNamesGone(before, after, PlannedNames(entry))
    ensures OnlyRemoved(before, after, Keys(directory)) && OnlyNamesGone(before, after, PlannedNames(directory))
  {
    assert Keys(entry) <= Keys(directory);
    assert PlannedNames(entry) <= PlannedNames(directory);
    OnlyRemovedMore(before, after, Keys(entry), Keys(directory));
  }

  /** The entry's own name is taken out, or nothing more happens. */
  lemma NameGone(before: Fs, now: Fs, after: Fs, directory: Plan, entry: Plan, ok: bool)
    requires OnlyRemoved(before, now, Keys(directory)) && OnlyNamesGone(before, now, PlannedNames(directory))
    requires entry in directory.children
    requires ok ==> Detachable(now, directory.expected.inode, entry.leaf)
    requires after == if ok then Without(now, directory.expected.inode, entry.leaf) else now
    ensures OnlyRemoved(before, after, Keys(directory)) && OnlyNamesGone(before, after, PlannedNames(directory))
    ensures ok ==> Detachable(before, directory.expected.inode, entry.leaf)
  {
    if ok {
      var dir := directory.expected.inode;
      assert (dir, entry.leaf) in PlannedNames(directory);
      OneNameGone(now, dir, entry.leaf, Keys(directory), PlannedNames(directory));
      OnlyRemovedTrans(before, now, after, Keys(directory));
      NamesGoneTrans(before, now, after, PlannedNames(directory));
    }
  }

  lemma OneNameGone(fs: Fs, dir: Inode, name: string, keys: set<Inode>, names: set<(Inode, string)>)
    requires dir in fs.nodes && dir in keys && (dir, name) in names
    ensures OnlyRemoved(fs, Without(fs, dir, name), keys)
    ensures OnlyNamesGone(fs, Without(fs, dir, name), names)
  {
  }

  lemma KeysAreBelow(fs: Fs, plan: Plan)
    requires PlanUnchanged(fs, plan)
    ensures Keys(plan) == DirectoriesBelow(fs, plan.expected.inode)
  {
    PlannedAreReachable(fs, plan);
    forall k | k in Keys(plan) ensures k in fs.nodes {
      var path :| Walk(fs, plan.expected.inode, path) == Some(Identity(k, Directory));
    }
  }

  /** `Removable` looks at exactly the names in the reachable directories. */
  lemma {:induction false} RemovableMeans(fs: Fs, plan: Plan)
    requires PlanUnchanged(fs, plan)
    ensures Removable(fs, plan) <==>
      forall k, name :: k in Keys(plan) && k in fs.nodes && name in fs.nodes[k].entries ==> Detachable(fs, k, name)
    decreases plan
  {
    forall c | c in plan.children && c.ForDirectory()
      ensures Removable(fs, c) <==>
        forall k, name :: k in Keys(c) && k in fs.nodes && name in fs.nodes[k].entries ==> Detachable(fs, k, name)
    {
      RemovableMeans(fs, c);
    }
    var dir := plan.expected.inode;
    if Removable(fs, plan) {
      forall k, name | k in Keys(plan) && k in fs.nodes && name in fs.nodes[k].entries
        ensures Detachable(fs, k, name)
      {
        if k == dir {
          var c :| c in plan.children && c.leaf == name;
          assert Detachable(fs, dir, c.leaf);
        } else {
          var c :| c in plan.children && c.ForDirectory() && k in Keys(c);
          assert Removable(fs, c);
        }
      }
    } else {
      var c :| c in plan.children && !(Detachable(fs, dir, c.leaf) && (c.ForDirectory() ==> Removable(fs, c)));
      assert c.leaf in Leaves(plan.children);
      if c.ForDirectory() && !Removable(fs, c) {
        assert Keys(c) <= Keys(plan);
      }
    }
  }

  lemma WorkspaceSettled(fs: Fs, effectiveUser: nat, workspace: ArtifactWorkspace, plan: Plan, shape: Shape)
    requires TreeShaped(fs, shape) && PlanUnchanged(fs, plan) && Removable(fs, plan)
    requires workspace.IdentityUnchanged(fs, effectiveUser) && plan.expected.inode == workspace.inode
    requires Detachable(fs, workspace.root, workspace.leaf)
    ensures Settled(fs, effectiveUser, workspace, plan, [], plan)
  {
    RemovableIsUncovered(fs, plan);
    TreePlansOnce(fs, shape, plan);
    assert OneLevelDown(fs, shape, workspace.root, workspace.leaf);
    if workspace.root in Keys(plan) {
      PlannedBelow(fs, shape, plan, workspace.root);
    }
  }

  lemma DetachableMeans(fs: Fs, root: Inode, leaf: string, plan: Plan)
    requires PlanUnchanged(fs, plan)
    ensures Removable(fs, plan) && Detachable(fs, root, leaf) <==>
      EveryNameDetachable(fs, root, leaf, plan.expected.inode)
  {
    KeysAreBelow(fs, plan);
    RemovableMeans(fs, plan);
    forall k | Reachable(fs, plan.expected.inode, k) ensures k in fs.nodes {
      var path :| Walk(fs, plan.expected.inode, path) == Some(Identity(k, Directory));
    }
  }

  lemma WorkspaceEmptied(fs: Fs, effectiveUser: nat, workspace: ArtifactWorkspace, plan: Plan)
    requires Settled(fs, effectiveUser, workspace, plan, [], plan) && plan.expected.inode == workspace.inode
    requires Detachable(fs, workspace.root, workspace.leaf)
    ensures workspace.IdentityUnchanged(Emptied(fs, Keys(plan)), effectiveUser)
    ensures CanRemoveDirectory(Emptied(fs, Keys(plan)), workspace.root, workspace.leaf)
  {
    EmptiedOnlyRemoved(fs, Keys(plan), Keys(plan));
    AncestorsFrame(fs, Emptied(fs, Keys(plan)), effectiveUser, workspace, plan, [], Keys(plan));
  }

  // ----- a read-only directory inside the workspace -----

  lemma {:induction false} ReachableStaysIn(fs: Fs, dir: Inode, dirs: set<Inode>, path: seq<string>, inner: Inode)
    requires dir in dirs
    requires forall k, name ::
      k in dirs && StatusAt(fs, k, name).Some? && StatusAt(fs, k, name).value.kind.Directory? ==>
      StatusAt(fs, k, name).value.inode in dirs
    requires Walk(fs, dir, path) == Some(Identity(inner, Directory))
    ensures inner in dirs
    decreases |path|
  {
    if path != [] {
      var next := StatusAt(fs, dir, path[0]);
      assert next.Some?;
      if next.value.kind.Directory? {
        ReachableStaysIn(fs, next.value.inode, dirs, path[1..], inner);
      }
    }
  }

  function DirectoryNode(readable: bool, writable: bool, entries: map<string, Inode>): Node {
    Node(Directory, 1000, 1000, WORKSPACE_MODE, "", readable, writable, {}, entries)
  }

  /** A workspace that holds one file inside one directory. */
  function SmallWorkspace(readable: bool, writable: bool): Fs {
    Fs(map[
      Inode(0, 1) := DirectoryNode(true, true, map["ws" := Inode(0, 2)]),
      Inode(0, 2) := DirectoryNode(true, true, map["pkg" := Inode(0, 3)]),
      Inode(0, 3) := DirectoryNode(readable, writable, map["file" := Inode(0, 4)]),
      Inode(0, 4) := Node(Regular, 1000, 1000, 0, "", true, true, {}, map[])],
      map[], Some(Inode(0, 1)))
  }

  lemma SmallWorkspaceDirectories(readable: bool, writable: bool)
    ensures var fs := SmallWorkspace(readable, writable);
      forall k :: Reachable(fs, Inode(0, 2), k) <==> k in {Inode(0, 2), Inode(0, 3)}
  {
    var fs := SmallWorkspace(readable, writable);
    var dirs := {Inode(0, 2), Inode(0, 3)};
    forall k | Reachable(fs, Inode(0, 2), k) ensures k in dirs {
      var path :| Walk(fs, Inode(0, 2), path) == Some(Identity(k, Directory));
      ReachableStaysIn(fs, Inode(0, 2), dirs, path, k);
    }
    WalkName(fs, Inode(0, 2), "pkg");
    ReachesItself(fs, Inode(0, 2));
    assert Reachable(fs, Inode(0, 2), Inode(0, 3));
  }

  /** On a quiet file system the two-phase cleanup still stops midway when a
      directory inside is not writable: the scan and the recheck do not look. */
  lemma ReadOnlyDirectoryStopsCleanup(writable: bool)
    ensures var fs := SmallWorkspace(true, writable);
      CleanupResult(fs, fs, 1000, Inode(0, 1), "ws", Inode(0, 2), 1000, true, true)
      == if writable then Cleaned else StoppedMidway
  {
    SmallWorkspaceDirectories(true, writable);
    assert "file" in SmallWorkspace(true, writable).nodes[Inode(0, 3)].entries;
  }

  /** The names, what they denote and the types: all a walk looks at. */
  ghost predicate SameNames(before: Fs, after: Fs) {
    && before.nodes.Keys == after.nodes.Keys && before.mounts == after.mounts
    && forall k | k in before.nodes ::
         before.nodes[k].kind == after.nodes[k].kind && before.nodes[k].entries == after.nodes[k].entries
  }

  lemma {:induction false} WalkLooksAtNames(before: Fs, after: Fs, dir: Inode, path: seq<string>)
    requires SameNames(before, after)
    ensures Walk(before, dir, path) == Walk(after, dir, path)
    decreases |path|
  {
    if path != [] && Lookup(before, dir, path[0]).Some? {
      WalkLooksAtNames(before, after, Lookup(before, dir, path[0]).value, path[1..]);
    }
  }

  lemma SmallWorkspaceIsScanned()
    ensures var fs := SmallWorkspace(true, true);
      && WorkspaceInPlace(fs, Inode(0, 1), "ws", Inode(0, 2), 1000)
      && fs.nodes[Inode(0, 2)].readable && Scannable(fs, Inode(0, 2), 0)
  {
    SmallWorkspaceDirectories(true, true);
  }

  lemma SmallWorkspaceIsUnreadable()
    ensures !TreeReadable(SmallWorkspace(false, true), Inode(0, 2))
  {
    SmallWorkspaceDirectories(false, true);
    assert Reachable(SmallWorkspace(false, true), Inode(0, 2), Inode(0, 3));
  }

  /** A directory that can no longer be read when the tree is rechecked refuses the
      cleanup, although the tree is the same. */
  lemma UnreadableDirectoryRefusesCleanup()
    ensures var before, after := SmallWorkspace(true, true), SmallWorkspace(false, true);
      && SameTree(before, after, Inode(0, 2))
      && CleanupResult(before, after, 1000, Inode(0, 1), "ws", Inode(0, 2), 1000, true, true) == RefusedChanged
  {
    var before, after := SmallWorkspace(true, true), SmallWorkspace(false, true);
    forall path ensures Walk(before, Inode(0, 2), path) == Walk(after, Inode(0, 2), path) {
      WalkLooksAtNames(before, after, Inode(0, 2), path);
    }
    SmallWorkspaceIsScanned();
    SmallWorkspaceIsUnreadable();
  }
}
