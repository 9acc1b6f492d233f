/**
 A second reading of a file system, straight from its fields: which inode a name
 denotes, and which directories lie below one.  `FileSystem.Walk` agrees with it.
 */
module FileSystemView {
  import opened Wrappers
  import opened FileSystem

  /** `name` in `dir` denotes `inode`: the root mounted over it or else its entry. */
  ghost predicate Denotes(fs: Fs, dir: Inode, name: string, inode: Inode) {
    && dir in fs.nodes && fs.nodes[dir].kind == Directory && name in fs.nodes[dir].entries && inode in fs.nodes
    && ((dir, name) in fs.mounts ==> inode == fs.mounts[(dir, name)])
    && ((dir, name) !in fs.mounts ==> inode == fs.nodes[dir].entries[name])
  }

  ghost predicate DenotesNothing(fs: Fs, dir: Inode, name: string) {
    forall inode :: !Denotes(fs, dir, name, inode)
  }

  /** Each directory of a chain denotes the next one by the name between them. */
  ghost predicate IsChain(fs: Fs, chain: seq<Inode>, names: seq<string>) {
    |chain| == |names| + 1 && forall i | 0 <= i < |names| :: Denotes(fs, chain[i], names[i], chain[i + 1])
  }

  ghost predicate LeadsDown(fs: Fs, dir: Inode, names: seq<string>, inode: Inode) {
    inode in fs.nodes && exists chain :: IsChain(fs, chain, names) && chain[0] == dir && chain[|names|] == inode
  }

  /** A directory that some chain of names leads to, `dir` itself included. */
  ghost predicate IsBelow(fs: Fs, dir: Inode, inner: Inode) {
    inner in fs.nodes && fs.nodes[inner].kind == Directory && exists names :: LeadsDown(fs, dir, names, inner)
  }

  lemma LookupDenotes(fs: Fs, dir: Inode, name: string)
    ensures forall inode :: Lookup(fs, dir, name) == Some(inode) <==> Denotes(fs, dir, name, inode)
    ensures Lookup(fs, dir, name).None? <==> DenotesNothing(fs, dir, name)
    ensures forall inode, kind :: StatusAt(fs, dir, name) == Some(Identity(inode, kind)) <==>
      Denotes(fs, dir, name, inode) && fs.nodes[inode].kind == kind
  {
    if Lookup(fs, dir, name).Some? {
      assert Denotes(fs, dir, name, Lookup(fs, dir, name).value);
    }
  }

  /** A file system is closed when every name of a directory denotes something. */
  ghost predicate NamesDenote(fs: Fs) {
    forall dir, name | dir in fs.nodes && fs.nodes[dir].kind == Directory && name in fs.nodes[dir].entries ::
      exists inode :: Denotes(fs, dir, name, inode)
  }

  lemma ClosedMeans(fs: Fs)
    ensures Closed(fs) <==> NamesDenote(fs)
  {
    forall dir, name ensures Lookup(fs, dir, name).Some? <==> exists inode :: Denotes(fs, dir, name, inode) {
      LookupDenotes(fs, dir, name);
    }
  }

  lemma ChainGoesOn(fs: Fs, dir: Inode, name: string, next: Inode, rest: seq<string>, inode: Inode)
    requires Denotes(fs, dir, name, next) && LeadsDown(fs, next, rest, inode)
    ensures LeadsDown(fs, dir, [name] + rest, inode)
  {
    var chain :| IsChain(fs, chain, rest) && chain[0] == next && chain[|rest|] == inode;
    var longer, names := [dir] + chain, [name] + rest;
    forall i | 0 <= i < |names| ensures Denotes(fs, longer[i], names[i], longer[i + 1]) {
      if i > 0 {
        assert longer[i] == chain[i - 1] && names[i] == rest[i - 1] && longer[i + 1] == chain[i];
      }
    }
    assert IsChain(fs, longer, names);
  }

  lemma ChainComesFrom(fs: Fs, dir: Inode, names: seq<string>, inode: Inode) returns (next: Inode)
    requires names != [] && LeadsDown(fs, dir, names, inode)
    ensures Denotes(fs, dir, names[0], next) && LeadsDown(fs, next, names[1..], inode)
    ensures |names| > 1 ==> fs.nodes[next].kind == Directory
  {
    var chain :| IsChain(fs, chain, names) && chain[0] == dir && chain[|names|] == inode;
    next := chain[1];
    assert Denotes(fs, chain[0], names[0], chain[1]);
    assert |names| > 1 ==> Denotes(fs, chain[1], names[1], chain[2]);
    var rest := chain[1..];
    forall i | 0 <= i < |names[1..]| ensures Denotes(fs, rest[i], names[1..][i], rest[i + 1]) {
      assert Denotes(fs, chain[i + 1], names[i + 1], chain[i + 2]);
    }
    assert IsChain(fs, rest, names[1..]);
  }

  lemma NoNames(fs: Fs, dir: Inode, inode: Inode)
    ensures LeadsDown(fs, dir, [], inode) <==> inode == dir && dir in fs.nodes
  {
    if inode == dir && dir in fs.nodes {
      assert IsChain(fs, [dir], []);
    }
  }

  /** A walk ends where the chain of its names does. */
  lemma {:induction false} WalkIsChain(fs: Fs, dir: Inode, path: seq<string>, inode: Inode)
    ensures LeadsDown(fs, dir, path, inode) <==>
      inode in fs.nodes && Walk(fs, dir, path) == Some(Identity(inode, fs.nodes[inode].kind))
    decreases |path|
  {
    if path == [] {
      NoNames(fs, dir, inode);
    } else {
      LookupDenotes(fs, dir, path[0]);
      assert path == [path[0]] + path[1..];
      if LeadsDown(fs, dir, path, inode) {
        var next := ChainComesFrom(fs, dir, path, inode);
        WalkIsChain(fs, next, path[1..], inode);
      }
      var found := Lookup(fs, dir, path[0]);
      if found.Some? && Walk(fs, dir, path).Some? {
        WalkIsChain(fs, found.value, path[1..], inode);
        if LeadsDown(fs, found.value, path[1..], inode) {
          ChainGoesOn(fs, dir, path[0], found.value, path[1..], inode);
        }
      }
    }
  }

  /** What a name that may go is: nothing is mounted over it, its directory may be
      changed and does not keep it; rmdir takes an empty directory and unlink anything
      that is none, so never both. */
  lemma WhatMayGo(fs: Fs, dir: Inode, name: string, inode: Inode)
    requires Denotes(fs, dir, name, inode)
    ensures Detachable(fs, dir, name) <==>
      fs.nodes[dir].writable && !(name in fs.nodes[dir].kept) && !((dir, name) in fs.mounts)
    ensures CanUnlink(fs, dir, name) <==> Detachable(fs, dir, name) && fs.nodes[inode].kind != Directory
    ensures CanRemoveDirectory(fs, dir, name) <==>
      Detachable(fs, dir, name) && fs.nodes[inode].kind == Directory && |fs.nodes[inode].entries| == 0
  {
    LookupDenotes(fs, dir, name);
    assert fs.nodes[inode].entries == map[] <==> |fs.nodes[inode].entries| == 0;
  }
}
