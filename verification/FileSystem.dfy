/**
 A file system as the program's system calls see it: inodes, the names inside
 each directory, and the mounts that cover some of those names.  An open
 directory descriptor is the inode it pins.
 */
module FileSystem {
  import opened Wrappers

  /** The file type bits of a status. */
  datatype Kind = Directory | Regular | Symlink | Fifo | Socket | CharDevice | BlockDevice

  /** The device and inode numbers of a status. */
  datatype Inode = Inode(device: nat, number: nat)

  /** What a status and a directory stream report of one inode.  `readable` and
      `writable` say whether the effective user may open the inode for reading
      and, for a directory, change its names; `kept` are the names in a sticky
      directory that belong to others and stay. */
  datatype Node = Node(
    kind: Kind, owner: nat, group: nat, mode: nat, target: string,
    readable: bool, writable: bool, kept: set<string>, entries: map<string, Inode>)

  /** `mounts` maps a covered name to the root mounted over it.  `cacheRoot` is
      the directory that the trusted cache root's own identity check accepts. */
  datatype Fs = Fs(
    nodes: map<Inode, Node>, mounts: map<(Inode, string), Inode>, cacheRoot: Option<Inode>)

  /** What `same_filesystem_identity` compares: device, inode and file type. */
  datatype Identity = Identity(inode: Inode, kind: Kind)

  predicate IsDirectory(fs: Fs, dir: Inode) {
    dir in fs.nodes && fs.nodes[dir].kind.Directory?
  }

  function Status(fs: Fs, inode: Inode): Option<Identity> {
    if inode in fs.nodes then Some(Identity(inode, fs.nodes[inode].kind)) else None
  }

  /** The inode that `name` in `dir` denotes, without following a symlink. */
  function Lookup(fs: Fs, dir: Inode, name: string): (r: Option<Inode>)
    ensures r.Some? ==> r.value in fs.nodes
  {
    if !IsDirectory(fs, dir) || name !in fs.nodes[dir].entries then None
    else
      var found := if (dir, name) in fs.mounts then fs.mounts[(dir, name)] else fs.nodes[dir].entries[name];
      if found in fs.nodes then Some(found) else None
  }

  function StatusAt(fs: Fs, dir: Inode, name: string): Option<Identity> {
    var found := Lookup(fs, dir, name);
    if found.None? then None else Status(fs, found.value)
  }

  /** What a path of names below `dir` denotes; symlinks are never followed. */
  function Walk(fs: Fs, dir: Inode, path: seq<string>): (r: Option<Identity>)
    ensures r.Some? ==> Status(fs, r.value.inode) == r
    decreases |path|
  {
    if path == [] then Status(fs, dir)
    else
      var next := Lookup(fs, dir, path[0]);
      if next.Some? && (|path| == 1 || fs.nodes[next.value].kind.Directory?) then Walk(fs, next.value, path[1..])
      else None
  }

  lemma WalkName(fs: Fs, dir: Inode, name: string)
    ensures Walk(fs, dir, [name]) == StatusAt(fs, dir, name)
  {
    assert [name][1..] == [];
  }

  lemma WalkStep(fs: Fs, dir: Inode, name: string, path: seq<string>)
    requires Lookup(fs, dir, name).Some?
    requires fs.nodes[Lookup(fs, dir, name).value].kind.Directory?
    ensures Walk(fs, dir, [name] + path) == Walk(fs, Lookup(fs, dir, name).value, path)
  {
    assert ([name] + path)[1..] == path;
  }

  /** Every name denotes an inode that exists. */
  ghost predicate Closed(fs: Fs) {
    forall dir, name ::
      IsDirectory(fs, dir) && name in fs.nodes[dir].entries ==> Lookup(fs, dir, name).Some?
  }

  /** The effective user may take `name` out of `dir`: the directory may be
      changed, stickiness does not keep the name and nothing is mounted over it. */
  predicate Detachable(fs: Fs, dir: Inode, name: string) {
    IsDirectory(fs, dir) && fs.nodes[dir].writable && name !in fs.nodes[dir].kept && (dir, name) !in fs.mounts
  }

  predicate CanUnlink(fs: Fs, dir: Inode, name: string) {
    Detachable(fs, dir, name) &&
    var found := Lookup(fs, dir, name);
    found.Some? && !fs.nodes[found.value].kind.Directory?
  }

  predicate CanRemoveDirectory(fs: Fs, dir: Inode, name: string) {
    Detachable(fs, dir, name) &&
    var found := Lookup(fs, dir, name);
    found.Some? && fs.nodes[found.value].kind.Directory? && fs.nodes[found.value].entries == map[]
  }

  /** The file system after `name` has been taken out of `dir`. */
  function Without(fs: Fs, dir: Inode, name: string): Fs
    requires dir in fs.nodes
  {
    var node := fs.nodes[dir];
    fs.(nodes := fs.nodes[dir := node.(entries := node.entries - {name})])
  }

  class Kernel {
    var fs: Fs
    const effectiveUser: nat

    constructor (fs: Fs, effectiveUser: nat)
      ensures this.fs == fs && this.effectiveUser == effectiveUser
    {
      this.fs, this.effectiveUser := fs, effectiveUser;
    }

    /** `unlinkat` without flags. */
    method Unlink(dir: Inode, name: string) returns (ok: bool)
      modifies this
      ensures ok == CanUnlink(old(fs), dir, name)
      ensures fs == if ok then Without(old(fs), dir, name) else old(fs)
    {
      ok := CanUnlink(fs, dir, name);
      if ok {
        fs := Without(fs, dir, name);
      }
    }

    /** `unlinkat` with `AT_REMOVEDIR`. */
    method RemoveDirectory(dir: Inode, name: string) returns (ok: bool)
      modifies this
      ensures ok == CanRemoveDirectory(old(fs), dir, name)
      ensures fs == if ok then Without(old(fs), dir, name) else old(fs)
    {
      ok := CanRemoveDirectory(fs, dir, name);
      if ok {
        fs := Without(fs, dir, name);
      }
    }
  }
}
