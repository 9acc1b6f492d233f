/**
 Which files an uninstall takes, told from the fields of the file system: modes by their
 octal digits, the way to a file by what each name on it denotes.
 */
module UninstallConditions {
  import opened Wrappers
  import opened FileSystem
  import opened FileSystemView
  import opened InstallManifest
  import opened ManifestUninstall

  // ----- modes -----

  /** In octal the mode is the special digit, then those of user, group and others. */
  ghost predicate HasDigits(mode: nat, special: nat, user: nat, group: nat, other: nat) {
    user < 8 && group < 8 && other < 8 && mode == 512 * special + 64 * user + 8 * group + other
  }

  /** A digit that grants writing. */
  ghost predicate GrantsWriting(digit: nat) {
    digit in {2, 3, 6, 7}
  }

  lemma HalfDigit(digit: nat)
    requires digit < 8
    ensures digit / 2 % 2 == 1 <==> GrantsWriting(digit)
  {
  }

  lemma EvenAside(rest: nat, half: nat)
    ensures (4 * rest + half) % 2 == half % 2
  {
  }

  /** The quotient is what is left of a smaller remainder. */
  lemma Sixteenth(mode: nat, q: nat, r: nat)
    requires r < 16 && mode == 16 * q + r
    ensures mode / 16 == q
  {
  }

  lemma GroupDigit(mode: nat, rest: nat, group: nat, other: nat)
    requires group < 8 && other < 8 && mode == 64 * rest + 8 * group + other
    ensures mode / 16 % 2 == 1 <==> GrantsWriting(group)
  {
    var half := group / 2;
    Sixteenth(mode, 4 * rest + half, 8 * (group % 2) + other);
    EvenAside(rest, half);
    HalfDigit(group);
  }

  lemma Half(mode: nat, q: nat, r: nat)
    requires r < 2 && mode == 2 * q + r
    ensures mode / 2 == q
  {
  }

  lemma OtherDigit(mode: nat, rest: nat, other: nat)
    requires other < 8 && mode == 8 * rest + other
    ensures mode / 2 % 2 == 1 <==> GrantsWriting(other)
  {
    var half := other / 2;
    Half(mode, 4 * rest + half, other % 2);
    EvenAside(rest, half);
    HalfDigit(other);
  }

  lemma SpecialDigit(mode: nat, special: nat, low: nat)
    requires low < 512 && mode == 512 * special + low
    ensures mode / 512 == special
  {
  }

  /** Others may write exactly when the digit of the group or that of the others says so,
      and a directory is sticky exactly when the special digit is odd. */
  lemma ModeMeans(mode: nat, special: nat, user: nat, group: nat, other: nat)
    requires HasDigits(mode, special, user, group, other)
    ensures OthersMayWrite(mode) <==> GrantsWriting(group) || GrantsWriting(other)
    ensures IsSticky(mode) <==> special % 2 == 1
  {
    GroupDigit(mode, 8 * special + user, group, other);
    OtherDigit(mode, 64 * special + 8 * user + group, other);
    SpecialDigit(mode, special, 64 * user + 8 * group + other);
  }

  lemma ModeHasDigits(mode: nat)
    ensures HasDigits(mode, mode / 8 / 8 / 8, mode / 8 / 8 % 8, mode / 8 % 8, mode % 8)
  {
    var tail := mode / 8;
    var upper := tail / 8;
    assert mode == 8 * tail + mode % 8 && tail == 8 * upper + tail % 8 && upper == 8 * (upper / 8) + upper % 8;
  }

  /** Neither the group nor others may write. */
  ghost predicate IsClosedToOthers(mode: nat) {
    exists special, user, group, other ::
      HasDigits(mode, special, user, group, other) && !GrantsWriting(group) && !GrantsWriting(other)
  }

  ghost predicate HasOddSpecialDigit(mode: nat) {
    exists special, user, group, other :: HasDigits(mode, special, user, group, other) && special % 2 == 1
  }

  lemma ClosedMeans(mode: nat)
    ensures OthersMayWrite(mode) <==> !IsClosedToOthers(mode)
    ensures IsSticky(mode) <==> HasOddSpecialDigit(mode)
  {
    ModeHasDigits(mode);
    ModeMeans(mode, mode / 8 / 8 / 8, mode / 8 / 8 % 8, mode / 8 % 8, mode % 8);
    if IsClosedToOthers(mode) {
      var special, user, group, other :|
        HasDigits(mode, special, user, group, other) && !GrantsWriting(group) && !GrantsWriting(other);
      ModeMeans(mode, special, user, group, other);
    }
    if HasOddSpecialDigit(mode) {
      var special, user, group, other :| HasDigits(mode, special, user, group, other) && special % 2 == 1;
      ModeMeans(mode, special, user, group, other);
    }
  }

  // ----- the way to a file -----

  /** A directory of root or the user that others may not write to; on the live root one
      above the install root may be sticky instead. */
  ghost predicate IsSafe(fs: Fs, setting: Setting, dir: Inode, maySticky: bool) {
    && dir in fs.nodes && fs.nodes[dir].kind == Directory
    && (fs.nodes[dir].owner == 0 || fs.nodes[dir].owner == setting.effectiveUser)
    && (IsClosedToOthers(fs.nodes[dir].mode) || (maySticky && HasOddSpecialDigit(fs.nodes[dir].mode)))
  }

  /** The link of the user that may stand for the `man` next to `share`. */
  ghost predicate IsManLink(fs: Fs, setting: Setting, components: seq<string>, way: seq<Inode>, link: Inode) {
    && |way| == 4 && |components| >= 4
    && components[0] == "usr" && components[1] == "local" && components[2] == "share" && components[3] == "man"
    && Denotes(fs, way[3], "man", link) && fs.nodes[link].kind == Symlink
    && fs.nodes[link].owner == setting.effectiveUser && fs.nodes[link].target == "../man"
  }

  /** From the last directory of the way to the one the next component leads to. */
  ghost predicate IsStep(fs: Fs, setting: Setting, components: seq<string>, way: seq<Inode>, next: Inode)
    requires 0 < |way| <= |components|
  {
    && next in fs.nodes && fs.nodes[next].kind == Directory && fs.nodes[next].readable
    && (|| Denotes(fs, way[|way| - 1], components[|way| - 1], next)
        || ((exists link :: IsManLink(fs, setting, components, way, link)) && Denotes(fs, way[2], "man", next)))
  }

  ghost predicate IsMissingStep(fs: Fs, setting: Setting, components: seq<string>, way: seq<Inode>)
    requires 0 < |way| <= |components|
  {
    || DenotesNothing(fs, way[|way| - 1], components[|way| - 1])
    || ((exists link :: IsManLink(fs, setting, components, way, link)) && DenotesNothing(fs, way[2], "man"))
  }

  ghost predicate AreSafe(fs: Fs, setting: Setting, depth: nat, way: seq<Inode>) {
    forall k | 0 <= k < |way| :: IsSafe(fs, setting, way[k], setting.isLive && 0 < k < depth)
  }

  ghost predicate AreSteps(fs: Fs, setting: Setting, components: seq<string>, way: seq<Inode>)
    requires |way| <= |components|
  {
    forall k | 0 < k < |way| :: IsStep(fs, setting, components, way[..k], way[k])
  }

  /** Safe directories from the trusted root on, each one step from the one before. */
  ghost predicate IsWay(fs: Fs, setting: Setting, components: seq<string>, depth: nat, way: seq<Inode>) {
    && 0 < |way| <= |components| && way[0] == setting.trustedRoot
    && AreSafe(fs, setting, depth, way) && fs.nodes[way[0]].readable
    && AreSteps(fs, setting, components, way)
  }

  lemma SafeMeans(fs: Fs, setting: Setting, dir: Inode, maySticky: bool)
    ensures IsSafeAncestor(fs, setting.effectiveUser, dir, maySticky) <==> IsSafe(fs, setting, dir, maySticky)
  {
    if dir in fs.nodes {
      ClosedMeans(fs.nodes[dir].mode);
    }
  }

  lemma AliasMeans(fs: Fs, setting: Setting, components: seq<string>, way: seq<Inode>)
    requires 0 < |way| <= |components|
    ensures IsAliasName(components, |way| - 1) && IsAlias(fs, setting.effectiveUser, way[3]) <==>
      exists link :: IsManLink(fs, setting, components, way, link)
  {
    if |way| == 4 {
      LookupDenotes(fs, way[3], "man");
      assert ALIAS <= components <==>
        components[0] == "usr" && components[1] == "local" && components[2] == "share" && components[3] == "man";
      var link := Lookup(fs, way[3], "man");
      if link.Some? && IsAliasName(components, 3) && IsAlias(fs, setting.effectiveUser, way[3]) {
        assert IsManLink(fs, setting, components, way, link.value);
      }
    }
  }

  lemma ChildMeans(fs: Fs, setting: Setting, components: seq<string>, way: seq<Inode>)
    requires 0 < |way| <= |components|
    ensures var child := EnterChild(fs, setting.effectiveUser, way, components, |way| - 1);
      && (forall next :: IsStep(fs, setting, components, way, next) <==> child.Child? && child.inode == next)
      && (child.ChildMissing? <==> IsMissingStep(fs, setting, components, way))
      && (child.Child? ==> child.via == Via(fs, setting, components, way))
  {
    var dir, name := way[|way| - 1], components[|way| - 1];
    LookupDenotes(fs, dir, name);
    AliasMeans(fs, setting, components, way);
    if |way| == 4 {
      LookupDenotes(fs, way[2], "man");
    }
    forall link | IsManLink(fs, setting, components, way, link) ensures Lookup(fs, dir, name) == Some(link) {
    }
  }

  /** The link that is recorded between two directories of the way. */
  ghost function Via(fs: Fs, setting: Setting, components: seq<string>, way: seq<Inode>): seq<FullIdentity> {
    if exists link :: IsManLink(fs, setting, components, way, link) then
      var link :| IsManLink(fs, setting, components, way, link);
      [IdentityOf(fs, link)]
    else []
  }

  /** What the program's walk makes of the directories so far. */
  ghost predicate ComesTo(
    fs: Fs, setting: Setting, components: seq<string>, depth: nat, way: seq<Inode>, ancestors: seq<FullIdentity>,
    parent: ParentResult)
  {
    && 0 < |way| <= |components|
    && ParentFrom(fs, setting, components, depth, way, ancestors) == parent
  }

  lemma ComesToEnd(
    fs: Fs, setting: Setting, components: seq<string>, depth: nat, way: seq<Inode>, ancestors: seq<FullIdentity>,
    parent: ParentResult)
    requires ComesTo(fs, setting, components, depth, way, ancestors, parent) && |way| == |components|
    ensures parent == Parent(way[|way| - 1], ancestors)
  {
  }

  lemma ComesToNext(
    fs: Fs, setting: Setting, components: seq<string>, depth: nat, way: seq<Inode>, ancestors: seq<FullIdentity>,
    parent: ParentResult)
    returns (child: Child)
    requires ComesTo(fs, setting, components, depth, way, ancestors, parent) && |way| < |components|
    ensures child.ChildMissing? <==> IsMissingStep(fs, setting, components, way)
    ensures child.Child? ==> child.via == Via(fs, setting, components, way)
    ensures forall next :: IsStep(fs, setting, components, way, next) <==> child.Child? && child.inode == next
    ensures child.ChildMissing? ==> parent.ParentMissing?
    ensures child.ChildRefused? ==> parent.ParentRefused?
    ensures child.Child? ==>
      if IsSafe(fs, setting, child.inode, setting.isLive && |way| < depth) then
        ComesTo(
          fs, setting, components, depth, way + [child.inode],
          ancestors + child.via + [IdentityOf(fs, child.inode)], parent)
      else parent.ParentRefused?
  {
    child := EnterChild(fs, setting.effectiveUser, way, components, |way| - 1);
    ChildMeans(fs, setting, components, way);
    if child.Child? {
      SafeMeans(fs, setting, child.inode, setting.isLive && |way| < depth);
    }
  }

  /** The way is followed, and the walk from it on comes to `parent`. */
  ghost predicate IsFollowed(
    fs: Fs, setting: Setting, components: seq<string>, depth: nat, way: seq<Inode>, ancestors: seq<FullIdentity>,
    parent: ParentResult)
  {
    IsWay(fs, setting, components, depth, way) && ComesTo(fs, setting, components, depth, way, ancestors, parent)
  }

  /** The whole way behind what the walk comes to. */
  ghost predicate IsWholeWay(
    fs: Fs, setting: Setting, components: seq<string>, depth: nat, whole: seq<Inode>, parent: ParentResult)
  {
    && IsWay(fs, setting, components, depth, whole)
    && (parent.Parent? ==> |whole| == |components| && parent.inode == whole[|whole| - 1])
    && (parent.ParentMissing? ==> |whole| < |components| && IsMissingStep(fs, setting, components, whole))
  }

  lemma {:induction false} ParentHasWay(
    fs: Fs, setting: Setting, components: seq<string>, depth: nat, way: seq<Inode>, ancestors: seq<FullIdentity>,
    parent: ParentResult)
    returns (whole: seq<Inode>)
    requires |way| <= |components| && IsFollowed(fs, setting, components, depth, way, ancestors, parent)
    requires !parent.ParentRefused?
    ensures IsWholeWay(fs, setting, components, depth, whole, parent)
    decreases |components| - |way|
  {
    if |way| < |components| {
      var isEnd, longer, more := GoesFurther(fs, setting, components, depth, way, ancestors, parent);
      if isEnd {
        whole := way;
      } else {
        whole := ParentHasWay(fs, setting, components, depth, longer, more, parent);
      }
    } else {
      whole := way;
      FollowedToEnd(fs, setting, components, depth, way, ancestors, parent);
    }
  }

  lemma FollowedToEnd(
    fs: Fs, setting: Setting, components: seq<string>, depth: nat, way: seq<Inode>, ancestors: seq<FullIdentity>,
    parent: ParentResult)
    requires IsFollowed(fs, setting, components, depth, way, ancestors, parent) && |way| == |components|
    ensures IsWholeWay(fs, setting, components, depth, way, parent)
  {
    ComesToEnd(fs, setting, components, depth, way, ancestors, parent);
  }

  lemma GoesFurther(
    fs: Fs, setting: Setting, components: seq<string>, depth: nat, way: seq<Inode>, ancestors: seq<FullIdentity>,
    parent: ParentResult)
    returns (isEnd: bool, longer: seq<Inode>, more: seq<FullIdentity>)
    requires IsFollowed(fs, setting, components, depth, way, ancestors, parent)
    requires |way| < |components| && !parent.ParentRefused?
    ensures isEnd ==> IsWholeWay(fs, setting, components, depth, way, parent)
    ensures !isEnd ==> |longer| == |way| + 1 && IsFollowed(fs, setting, components, depth, longer, more, parent)
  {
    var child := ComesToNext(fs, setting, components, depth, way, ancestors, parent);
    isEnd, longer, more := !child.Child?, way, ancestors;
    if child.Child? {
      OneStepMore(fs, setting, components, depth, way, child.inode);
      longer, more := way + [child.inode], ancestors + child.via + [IdentityOf(fs, child.inode)];
    }
  }

  lemma OneStepMore(
    fs: Fs, setting: Setting, components: seq<string>, depth: nat, way: seq<Inode>, next: Inode)
    requires IsWay(fs, setting, components, depth, way) && |way| < |components|
    requires IsStep(fs, setting, components, way, next)
    requires IsSafe(fs, setting, next, setting.isLive && |way| < depth)
    ensures IsWay(fs, setting, components, depth, way + [next])
  {
    var longer := way + [next];
    forall k | 0 < k < |longer| ensures IsStep(fs, setting, components, longer[..k], longer[k]) {
      assert longer[..k] == way[..k];
      assert way[..|way|] == way;
    }
  }

  /** What is recorded of the first `k` directories of the way. */
  ghost function Recorded(
    fs: Fs, setting: Setting, components: seq<string>, way: seq<Inode>, k: nat): seq<FullIdentity>
    requires k <= |way|
    decreases k
  {
    if k == 0 then []
    else
      Recorded(fs, setting, components, way, k - 1)
      + (if k == 1 then [] else Via(fs, setting, components, way[..k - 1]))
      + (if way[k - 1] in fs.nodes then [IdentityOf(fs, way[k - 1])] else [])
  }

  /** Following a way, the program comes to its last directory. */
  lemma {:induction false} FollowWay(
    fs: Fs, setting: Setting, components: seq<string>, depth: nat, way: seq<Inode>, k: nat,
    ancestors: seq<FullIdentity>, parent: ParentResult)
    returns (all: seq<FullIdentity>)
    requires IsWay(fs, setting, components, depth, way) && 0 < k <= |way|
    requires ComesTo(fs, setting, components, depth, way[..k], ancestors, parent)
    requires ancestors == Recorded(fs, setting, components, way, k)
    ensures ComesTo(fs, setting, components, depth, way, all, parent)
    ensures all == Recorded(fs, setting, components, way, |way|)
    decreases |way| - k
  {
    if k == |way| {
      assert way[..k] == way;
      all := ancestors;
    } else {
      var more := FollowStep(fs, setting, components, depth, way, k, ancestors, parent);
      all := FollowWay(fs, setting, components, depth, way, k + 1, more, parent);
    }
  }

  lemma FollowStep(
    fs: Fs, setting: Setting, components: seq<string>, depth: nat, way: seq<Inode>, k: nat,
    ancestors: seq<FullIdentity>, parent: ParentResult)
    returns (more: seq<FullIdentity>)
    requires IsWay(fs, setting, components, depth, way) && 0 < k < |way|
    requires ComesTo(fs, setting, components, depth, way[..k], ancestors, parent)
    ensures way[k] in fs.nodes
    ensures ComesTo(fs, setting, components, depth, way[..k + 1], more, parent)
    ensures more == ancestors + Via(fs, setting, components, way[..k]) + [IdentityOf(fs, way[k])]
  {
    WayStep(fs, setting, components, depth, way, k);
    more := StepComes(fs, setting, components, depth, way[..k], way[k], ancestors, parent);
  }

  lemma SafeAt(fs: Fs, setting: Setting, depth: nat, way: seq<Inode>, k: nat)
    requires AreSafe(fs, setting, depth, way) && 0 < k < |way|
    ensures IsSafe(fs, setting, way[k], setting.isLive && k < depth)
  {
  }

  lemma StepAt(fs: Fs, setting: Setting, components: seq<string>, way: seq<Inode>, k: nat)
    requires |way| <= |components| && AreSteps(fs, setting, components, way) && 0 < k < |way|
    ensures IsStep(fs, setting, components, way[..k], way[k])
    ensures way[..k + 1] == way[..k] + [way[k]]
  {
  }

  lemma WayStep(fs: Fs, setting: Setting, components: seq<string>, depth: nat, way: seq<Inode>, k: nat)
    requires IsWay(fs, setting, components, depth, way) && 0 < k < |way|
    ensures IsStep(fs, setting, components, way[..k], way[k])
    ensures IsSafe(fs, setting, way[k], setting.isLive && k < depth)
    ensures way[..k + 1] == way[..k] + [way[k]]
  {
    SafeAt(fs, setting, depth, way, k);
    StepAt(fs, setting, components, way, k);
  }

  lemma StepComes(
    fs: Fs, setting: Setting, components: seq<string>, depth: nat, before: seq<Inode>, next: Inode,
    ancestors: seq<FullIdentity>, parent: ParentResult)
    returns (more: seq<FullIdentity>)
    requires ComesTo(fs, setting, components, depth, before, ancestors, parent) && |before| < |components|
    requires IsStep(fs, setting, components, before, next)
    requires IsSafe(fs, setting, next, setting.isLive && |before| < depth)
    ensures ComesTo(fs, setting, components, depth, before + [next], more, parent)
    ensures more == ancestors + Via(fs, setting, components, before) + [IdentityOf(fs, next)]
  {
    var child := ComesToNext(fs, setting, components, depth, before, ancestors, parent);
    more := ancestors + child.via + [IdentityOf(fs, child.inode)];
  }

  lemma WayStarts(fs: Fs, setting: Setting, components: seq<string>, depth: nat)
    requires components != []
    ensures ParentOf(fs, setting, components, depth).ParentRefused?
      || IsWay(fs, setting, components, depth, [setting.trustedRoot])
    ensures forall way | IsWay(fs, setting, components, depth, way) ::
      IsWay(fs, setting, components, depth, [setting.trustedRoot])
  {
    SafeMeans(fs, setting, setting.trustedRoot, false);
    assert (setting.isLive && 0 < 0 < depth) == false;
  }

  lemma ParentAlong(fs: Fs, setting: Setting, components: seq<string>, depth: nat, way: seq<Inode>)
    returns (ancestors: seq<FullIdentity>)
    requires IsWay(fs, setting, components, depth, way)
    ensures ComesTo(fs, setting, components, depth, way, ancestors, ParentOf(fs, setting, components, depth))
    ensures ancestors == Recorded(fs, setting, components, way, |way|)
  {
    SafeMeans(fs, setting, setting.trustedRoot, false);
    assert way[..1] == [setting.trustedRoot];
    assert Recorded(fs, setting, components, way, 1) == [IdentityOf(fs, setting.trustedRoot)];
    ancestors := FollowWay(
      fs, setting, components, depth, way, 1, [IdentityOf(fs, setting.trustedRoot)],
      ParentOf(fs, setting, components, depth));
  }

  ghost predicate EndsIn(fs: Fs, setting: Setting, components: seq<string>, depth: nat, dir: Inode) {
    exists way :: IsWay(fs, setting, components, depth, way) && |way| == |components| && way[|way| - 1] == dir
  }

  /** The directory of an entry is the end of a way through all components but the last. */
  lemma ParentExactly(fs: Fs, setting: Setting, components: seq<string>, depth: nat)
    requires components != []
    ensures var parent := ParentOf(fs, setting, components, depth);
      && (forall dir :: EndsIn(fs, setting, components, depth, dir) <==> parent.Parent? && parent.inode == dir)
      && (parent.ParentMissing? <==> exists way ::
            && IsWay(fs, setting, components, depth, way) && |way| < |components|
            && IsMissingStep(fs, setting, components, way))
  {
    var parent, root := ParentOf(fs, setting, components, depth), setting.trustedRoot;
    WayStarts(fs, setting, components, depth);
    if !parent.ParentRefused? {
      SafeMeans(fs, setting, root, false);
      var whole := ParentHasWay(fs, setting, components, depth, [root], [IdentityOf(fs, root)], parent);
    }
    forall way | IsWay(fs, setting, components, depth, way)
      ensures |way| == |components| ==> parent.Parent? && parent.inode == way[|way| - 1]
      ensures |way| < |components| && IsMissingStep(fs, setting, components, way) ==> parent.ParentMissing?
    {
      WayDecides(fs, setting, components, depth, way);
    }
  }

  lemma WayDecides(fs: Fs, setting: Setting, components: seq<string>, depth: nat, way: seq<Inode>)
    requires IsWay(fs, setting, components, depth, way)
    ensures var parent := ParentOf(fs, setting, components, depth);
      && (|way| == |components| ==> parent.Parent? && parent.inode == way[|way| - 1])
      && (|way| < |components| && IsMissingStep(fs, setting, components, way) ==> parent.ParentMissing?)
      && (forall next | |way| < |components| && IsStep(fs, setting, components, way, next)
            && !IsSafe(fs, setting, next, setting.isLive && |way| < depth) :: parent.ParentRefused?)
  {
    var parent := ParentOf(fs, setting, components, depth);
    var ancestors := ParentAlong(fs, setting, components, depth, way);
    if |way| < |components| {
      var _ := ComesToNext(fs, setting, components, depth, way, ancestors, parent);
    } else {
      ComesToEnd(fs, setting, components, depth, way, ancestors, parent);
    }
  }

  // ----- candidates -----

  /** A regular file of the user that neither group nor others may write to. */
  ghost predicate IsOwnFile(fs: Fs, setting: Setting, inode: Inode) {
    && inode in fs.nodes && fs.nodes[inode].kind == Regular && fs.nodes[inode].owner == setting.effectiveUser
    && IsClosedToOthers(fs.nodes[inode].mode)
  }

  /** The entry's file, in the directory its way ends in. */
  ghost predicate IsFileOf(
    fs: Fs, setting: Setting, components: seq<string>, depth: nat, dir: Inode, file: Inode)
    requires components != []
  {
    && EndsIn(fs, setting, components, depth, dir) && Denotes(fs, dir, components[|components| - 1], file)
    && IsOwnFile(fs, setting, file)
  }

  ghost predicate HasNoFile(fs: Fs, setting: Setting, components: seq<string>, depth: nat) {
    exists way :: IsWay(fs, setting, components, depth, way) && IsEndOfWay(fs, setting, components, way)
  }

  /** The next component denotes nothing, or the last one does. */
  ghost predicate IsEndOfWay(fs: Fs, setting: Setting, components: seq<string>, way: seq<Inode>)
    requires 0 < |way| <= |components|
  {
    if |way| == |components| then DenotesNothing(fs, way[|way| - 1], components[|way| - 1])
    else IsMissingStep(fs, setting, components, way)
  }

  /** A candidate for this file in this directory. */
  ghost predicate Takes(c: Option<Candidate>, dir: Inode, file: Inode) {
    && c.Some? && c.value.found.Some?
    && c.value.found.value.parent == dir && c.value.found.value.identity.inode == file
  }

  lemma InspectionIn(fs: Fs, setting: Setting, entry: ParsedPath, depth: nat, dir: Inode)
    requires entry.components != []
    requires var parent := ParentOf(fs, setting, entry.components, depth); parent.Parent? && parent.inode == dir
    ensures var c := InspectCandidate(fs, setting, entry, depth);
      && (forall file :: Takes(c, dir, file) <==>
            Denotes(fs, dir, entry.components[|entry.components| - 1], file) && IsOwnFile(fs, setting, file))
      && (c.Some? && c.value.found.None? <==> DenotesNothing(fs, dir, entry.components[|entry.components| - 1]))
      && (c.Some? ==> c.value.entry == entry && (c.value.found.Some? ==> c.value.found.value.parent == dir))
  {
    LookupDenotes(fs, dir, Leaf(entry));
    var found := Lookup(fs, dir, Leaf(entry));
    if found.Some? {
      ClosedMeans(fs.nodes[found.value].mode);
    }
  }

  lemma InspectionElsewhere(fs: Fs, setting: Setting, entry: ParsedPath, depth: nat)
    requires entry.components != [] && !ParentOf(fs, setting, entry.components, depth).Parent?
    ensures InspectCandidate(fs, setting, entry, depth) ==
      if ParentOf(fs, setting, entry.components, depth).ParentMissing? then Some(Candidate(entry, depth, None))
      else None
  {
  }

  /** The program's candidate is the one for the directory `parent` stands for. */
  ghost predicate IsInspected(
    fs: Fs, setting: Setting, entry: ParsedPath, depth: nat, parent: ParentResult, c: Option<Candidate>)
    requires entry.components != []
  {
    var leaf := entry.components[|entry.components| - 1];
    match parent
    case ParentRefused => c.None?
    case ParentMissing => c == Some(Candidate(entry, depth, None))
    case Parent(dir, _) =>
      && (forall file :: Takes(c, dir, file) <==> Denotes(fs, dir, leaf, file) && IsOwnFile(fs, setting, file))
      && (c.Some? && c.value.found.None? <==> DenotesNothing(fs, dir, leaf))
      && (c.Some? ==> c.value.entry == entry && (c.value.found.Some? ==> c.value.found.value.parent == dir))
  }

  lemma InspectedByParent(fs: Fs, setting: Setting, entry: ParsedPath, depth: nat)
    requires entry.components != []
    ensures IsInspected(
      fs, setting, entry, depth, ParentOf(fs, setting, entry.components, depth),
      InspectCandidate(fs, setting, entry, depth))
  {
    var parent := ParentOf(fs, setting, entry.components, depth);
    if parent.Parent? {
      InspectionIn(fs, setting, entry, depth, parent.inode);
    } else {
      InspectionElsewhere(fs, setting, entry, depth);
    }
  }

  ghost predicate IsParent(
    fs: Fs, setting: Setting, components: seq<string>, depth: nat, parent: ParentResult)
    requires components != []
  {
    && (forall dir :: EndsIn(fs, setting, components, depth, dir) <==> parent.Parent? && parent.inode == dir)
    && (HasNoFile(fs, setting, components, depth) <==>
          || parent.ParentMissing?
          || (parent.Parent? && DenotesNothing(fs, parent.inode, components[|components| - 1])))
  }

  lemma ParentIsParent(fs: Fs, setting: Setting, components: seq<string>, depth: nat)
    requires components != []
    ensures IsParent(fs, setting, components, depth, ParentOf(fs, setting, components, depth))
  {
    ParentExactly(fs, setting, components, depth);
    NoFileMeans(fs, setting, components, depth);
  }

  /** What an inspection finds: the entry's own file; that there is none; and nothing at
      all when the way is not safe or the file is not the user's alone. */
  ghost predicate FindsExactly(fs: Fs, setting: Setting, entry: ParsedPath, depth: nat, c: Option<Candidate>)
    requires entry.components != []
  {
    && (forall dir, file :: Takes(c, dir, file) <==> IsFileOf(fs, setting, entry.components, depth, dir, file))
    && (c.Some? && c.value.found.None? <==> HasNoFile(fs, setting, entry.components, depth))
    && (c.Some? ==> c.value.entry == entry)
  }

  lemma InspectedFindsExactly(
    fs: Fs, setting: Setting, entry: ParsedPath, depth: nat, parent: ParentResult, c: Option<Candidate>)
    requires entry.components != [] && IsParent(fs, setting, entry.components, depth, parent)
    requires IsInspected(fs, setting, entry, depth, parent, c)
    ensures FindsExactly(fs, setting, entry, depth, c)
  {
  }

  lemma InspectionMeans(fs: Fs, setting: Setting, entry: ParsedPath, depth: nat)
    requires entry.components != []
    ensures FindsExactly(fs, setting, entry, depth, InspectCandidate(fs, setting, entry, depth))
  {
    InspectedByParent(fs, setting, entry, depth);
    ParentIsParent(fs, setting, entry.components, depth);
    InspectedFindsExactly(
      fs, setting, entry, depth, ParentOf(fs, setting, entry.components, depth),
      InspectCandidate(fs, setting, entry, depth));
  }

  lemma NoFileMeans(fs: Fs, setting: Setting, components: seq<string>, depth: nat)
    requires components != []
    ensures var parent := ParentOf(fs, setting, components, depth);
      HasNoFile(fs, setting, components, depth) <==>
        || parent.ParentMissing?
        || (parent.Parent? && DenotesNothing(fs, parent.inode, components[|components| - 1]))
  {
    ParentExactly(fs, setting, components, depth);
    forall way | IsWay(fs, setting, components, depth, way) {
      WayDecides(fs, setting, components, depth, way);
    }
    var parent := ParentOf(fs, setting, components, depth);
    if parent.Parent? {
      assert EndsIn(fs, setting, components, depth, parent.inode);
    }
  }

  // ----- the manifest -----

  /** The depth of the first allowed root the entry is beneath. */
  ghost predicate LiesBelowRoot(rawRoots: seq<string>, entry: ParsedPath, depth: nat) {
    DepthOf(entry, EntriesOf(FirstOccurrences(rawRoots))) == Some(depth)
  }

  /** Of the roots as they were given the first one the entry is beneath counts. */
  lemma RootMeans(rawRoots: seq<string>, entry: ParsedPath, depth: nat)
    ensures LiesBelowRoot(rawRoots, entry, depth) <==>
      exists k | 0 <= k < |rawRoots| ::
        && ComponentsOf(rawRoots[k]) < entry.components && depth == |ComponentsOf(rawRoots[k])|
        && forall q | 0 <= q < k :: !(ComponentsOf(rawRoots[q]) < entry.components)
  {
    FirstOccurrencesCount(entry, rawRoots);
    FirstRootCounts(entry, EntriesOf(rawRoots));
    assert forall k | 0 <= k < |rawRoots| :: EntriesOf(rawRoots)[k].components == ComponentsOf(rawRoots[k]);
  }

  lemma {:induction false} FirstRootCounts(entry: ParsedPath, roots: seq<ParsedPath>)
    ensures forall depth: nat :: DepthOf(entry, roots) == Some(depth) <==>
      exists k | 0 <= k < |roots| :: IsFirstAbove(entry, roots, k) && depth == |roots[k].components|
  {
    if roots != [] && !(roots[0].components < entry.components) {
      FirstRootCounts(entry, roots[1..]);
      forall k | 0 <= k < |roots| - 1
        ensures IsFirstAbove(entry, roots, k + 1) <==> IsFirstAbove(entry, roots[1..], k)
      {
        if IsFirstAbove(entry, roots[1..], k) {
          forall q | 0 <= q < k + 1 ensures !(roots[q].components < entry.components) {
            assert q > 0 ==> roots[1..][q - 1] == roots[q];
          }
        }
        if IsFirstAbove(entry, roots, k + 1) {
          forall q | 0 <= q < k ensures !(roots[1..][q].components < entry.components) {
            assert roots[1..][q] == roots[q + 1];
          }
        }
      }
      assert !IsFirstAbove(entry, roots, 0);
    }
  }

  ghost predicate IsFirstAbove(entry: ParsedPath, roots: seq<ParsedPath>, k: int)
    requires 0 <= k < |roots|
  {
    roots[k].components < entry.components && forall q | 0 <= q < k :: !(roots[q].components < entry.components)
  }

  lemma {:induction false} LastRootCounts(entry: ParsedPath, roots: seq<ParsedPath>, last: ParsedPath)
    ensures DepthOf(entry, roots + [last]) ==
      if DepthOf(entry, roots).Some? then DepthOf(entry, roots) else DepthOf(entry, [last])
  {
    if roots == [] {
      assert roots + [last] == [last];
    } else {
      assert (roots + [last])[1..] == roots[1..] + [last];
      LastRootCounts(entry, roots[1..], last);
    }
  }

  lemma {:induction false} FirstOccurrencesCount(entry: ParsedPath, texts: seq<string>)
    ensures DepthOf(entry, EntriesOf(FirstOccurrences(texts))) == DepthOf(entry, EntriesOf(texts))
  {
    if texts != [] {
      var most, last := texts[..|texts| - 1], texts[|texts| - 1];
      FirstOccurrencesCount(entry, most);
      var root := ParsedPath(last, ComponentsOf(last));
      LastRootCounts(entry, EntriesOf(most), root);
      assert EntriesOf(texts) == EntriesOf(most) + [root];
      var before := FirstOccurrences(most);
      if last in before {
        RootIsAbove(entry, before, last);
      } else {
        LastRootCounts(entry, EntriesOf(before), root);
        assert EntriesOf(before + [last]) == EntriesOf(before) + [root];
      }
    }
  }

  /** A root that is there already changes nothing when it comes again. */
  lemma RootIsAbove(entry: ParsedPath, texts: seq<string>, text: string)
    requires text in texts
    ensures DepthOf(entry, EntriesOf(texts)).None? ==> DepthOf(entry, [ParsedPath(text, ComponentsOf(text))]).None?
  {
    DepthMeans(entry, EntriesOf(texts));
    DepthMeans(entry, [ParsedPath(text, ComponentsOf(text))]);
    var k :| 0 <= k < |texts| && texts[k] == text;
    assert EntriesOf(texts)[k].components == ComponentsOf(text);
  }

  ghost predicate IsSettled(fs: Fs, setting: Setting, rawRoots: seq<string>, entry: ParsedPath) {
    && entry.components != []
    && exists depth ::
         && LiesBelowRoot(rawRoots, entry, depth)
         && (HasNoFile(fs, setting, entry.components, depth)
             || exists dir, file :: IsFileOf(fs, setting, entry.components, depth, dir, file))
  }

  lemma CandidateMeans(fs: Fs, setting: Setting, rawRoots: seq<string>, entry: ParsedPath)
    requires entry.components != []
    ensures CandidateOf(fs, setting, entry, EntriesOf(FirstOccurrences(rawRoots))).Some? <==>
      IsSettled(fs, setting, rawRoots, entry)
  {
    var depth := DepthOf(entry, EntriesOf(FirstOccurrences(rawRoots)));
    if depth.Some? {
      assert LiesBelowRoot(rawRoots, entry, depth.value);
      InspectionMeans(fs, setting, entry, depth.value);
      FoundOrNot(fs, setting, entry, depth.value, InspectCandidate(fs, setting, entry, depth.value));
    }
  }

  lemma FoundOrNot(fs: Fs, setting: Setting, entry: ParsedPath, depth: nat, c: Option<Candidate>)
    requires entry.components != [] && FindsExactly(fs, setting, entry, depth, c)
    ensures c.Some? <==>
      || HasNoFile(fs, setting, entry.components, depth)
      || exists dir, file :: IsFileOf(fs, setting, entry.components, depth, dir, file)
  {
    if c.Some? && c.value.found.Some? {
      assert Takes(c, c.value.found.value.parent, c.value.found.value.identity.inode);
    }
    forall dir, file | IsFileOf(fs, setting, entry.components, depth, dir, file) ensures Takes(c, dir, file) {
    }
  }

  /** A manifest is prepared exactly when its roots and lines are canonical and every entry
      lies below a root with a safe way to its own file or to where there is none. */
  lemma PreparedMeans(fs: Fs, setting: Setting, rawRoots: seq<string>, contents: string)
    ensures Prepared(fs, setting, rawRoots, contents).Some? <==>
      && AreRoots(rawRoots) && ManifestOf(contents).Some?
      && forall i | 0 <= i < |ManifestOf(contents).value| ::
           IsSettled(fs, setting, rawRoots, ManifestOf(contents).value[i])
  {
    if ManifestOf(contents).Some? {
      ManifestHasNames(contents);
      var entries := ManifestOf(contents).value;
      forall i | 0 <= i < |entries|
        ensures CandidateOf(fs, setting, entries[i], EntriesOf(FirstOccurrences(rawRoots))).Some? <==>
          IsSettled(fs, setting, rawRoots, entries[i])
      {
        CandidateMeans(fs, setting, rawRoots, entries[i]);
      }
    }
  }

  /** The names taken are exactly those of the entries' own files. */
  lemma TakenMeans(fs: Fs, setting: Setting, rawRoots: seq<string>, contents: string, dir: Inode, name: string)
    requires Prepared(fs, setting, rawRoots, contents).Some?
    requires AreCandidates(Prepared(fs, setting, rawRoots, contents).value)
    ensures (dir, name) in Names(Prepared(fs, setting, rawRoots, contents).value) <==>
      exists i, depth, file ::
        IsTakenFor(fs, setting, rawRoots, ManifestOf(contents).value, i, depth, dir, name, file)
  {
    var candidates, entries := Prepared(fs, setting, rawRoots, contents).value, ManifestOf(contents).value;
    forall i, depth, file
      | IsTakenFor(fs, setting, rawRoots, entries, i, depth, dir, name, file)
      ensures (dir, name) in Names(candidates)
    {
      TakenIsFound(fs, setting, rawRoots, contents, i, depth, dir, file);
      assert NameOf(candidates[i]) == (dir, name);
    }
    if (dir, name) in Names(candidates) {
      var i :| 0 <= i < |candidates| && candidates[i].found.Some? && NameOf(candidates[i]) == (dir, name);
      FoundIsTaken(fs, setting, rawRoots, contents, i);
    }
  }

  ghost predicate IsTakenFor(
    fs: Fs, setting: Setting, rawRoots: seq<string>, entries: seq<ParsedPath>, i: int, depth: nat,
    dir: Inode, name: string, file: Inode)
  {
    && 0 <= i < |entries| && entries[i].components != [] && name == entries[i].components[|entries[i].components| - 1]
    && LiesBelowRoot(rawRoots, entries[i], depth)
    && IsFileOf(fs, setting, entries[i].components, depth, dir, file)
  }

  lemma CandidateIsInspected(fs: Fs, setting: Setting, rawRoots: seq<string>, contents: string, i: nat)
    returns (depth: nat)
    requires Prepared(fs, setting, rawRoots, contents).Some? && i < |ManifestOf(contents).value|
    ensures var candidates, entry := Prepared(fs, setting, rawRoots, contents).value, ManifestOf(contents).value[i];
      && i < |candidates| && entry.components != [] && LiesBelowRoot(rawRoots, entry, depth)
      && FindsExactly(fs, setting, entry, depth, Some(candidates[i]))
  {
    CandidatesComeFrom(fs, setting, rawRoots, contents, i);
    var entry := ManifestOf(contents).value[i];
    depth := DepthOf(entry, EntriesOf(FirstOccurrences(rawRoots))).value;
    InspectionMeans(fs, setting, entry, depth);
  }

  lemma TakenIsFound(
    fs: Fs, setting: Setting, rawRoots: seq<string>, contents: string, i: nat, depth: nat, dir: Inode, file: Inode)
    requires Prepared(fs, setting, rawRoots, contents).Some? && i < |ManifestOf(contents).value|
    requires ManifestOf(contents).value[i].components != []
    requires LiesBelowRoot(rawRoots, ManifestOf(contents).value[i], depth)
    requires IsFileOf(fs, setting, ManifestOf(contents).value[i].components, depth, dir, file)
    ensures var candidates := Prepared(fs, setting, rawRoots, contents).value;
      && i < |candidates| && Takes(Some(candidates[i]), dir, file)
      && candidates[i].entry == ManifestOf(contents).value[i]
  {
    var _ := CandidateIsInspected(fs, setting, rawRoots, contents, i);
  }

  lemma FoundIsTaken(fs: Fs, setting: Setting, rawRoots: seq<string>, contents: string, i: nat)
    requires Prepared(fs, setting, rawRoots, contents).Some?
    requires i < |Prepared(fs, setting, rawRoots, contents).value|
    requires Prepared(fs, setting, rawRoots, contents).value[i].found.Some?
    requires Prepared(fs, setting, rawRoots, contents).value[i].entry.components != []
    ensures var c := Prepared(fs, setting, rawRoots, contents).value[i];
      exists depth, file :: IsTakenFor(
        fs, setting, rawRoots, ManifestOf(contents).value, i, depth, NameOf(c).0, NameOf(c).1, file)
  {
    var c, entries := Prepared(fs, setting, rawRoots, contents).value[i], ManifestOf(contents).value;
    CandidatesComeFrom(fs, setting, rawRoots, contents, i);
    var depth := CandidateIsInspected(fs, setting, rawRoots, contents, i);
    var found := c.found.value;
    assert Takes(Some(c), found.parent, found.identity.inode);
    assert IsTakenFor(
      fs, setting, rawRoots, entries, i, depth, NameOf(c).0, NameOf(c).1, found.identity.inode);
  }

  /** A directory on the way that the group or others may write to refuses the whole
      manifest, unless it is sticky on the live root above the install root. */
  lemma WritableWayRefuses(
    fs: Fs, setting: Setting, rawRoots: seq<string>, contents: string, i: nat, depth: nat, way: seq<Inode>,
    next: Inode, special: nat, user: nat, group: nat, other: nat)
    requires ManifestOf(contents).Some? && i < |ManifestOf(contents).value|
    requires LiesBelowRoot(rawRoots, ManifestOf(contents).value[i], depth)
    requires IsWay(fs, setting, ManifestOf(contents).value[i].components, depth, way)
    requires |way| < |ManifestOf(contents).value[i].components|
    requires IsStep(fs, setting, ManifestOf(contents).value[i].components, way, next)
    requires HasDigits(fs.nodes[next].mode, special, user, group, other)
    requires GrantsWriting(group) || GrantsWriting(other)
    requires !setting.isLive || depth <= |way| || special % 2 == 0
    ensures Prepared(fs, setting, rawRoots, contents).None?
  {
    var entry := ManifestOf(contents).value[i];
    ModeMeans(fs.nodes[next].mode, special, user, group, other);
    ClosedMeans(fs.nodes[next].mode);
    WayDecides(fs, setting, entry.components, depth, way);
    assert ParentOf(fs, setting, entry.components, depth).ParentRefused?;
    RefusedEntryRefuses(fs, setting, rawRoots, contents, i, depth);
  }

  lemma RefusedEntryRefuses(
    fs: Fs, setting: Setting, rawRoots: seq<string>, contents: string, i: nat, depth: nat)
    requires ManifestOf(contents).Some? && i < |ManifestOf(contents).value|
    requires ManifestOf(contents).value[i].components != []
    requires LiesBelowRoot(rawRoots, ManifestOf(contents).value[i], depth)
    requires InspectCandidate(fs, setting, ManifestOf(contents).value[i], depth).None?
    ensures Prepared(fs, setting, rawRoots, contents).None?
  {
    assert CandidateOf(fs, setting, ManifestOf(contents).value[i], EntriesOf(FirstOccurrences(rawRoots))).None?;
  }

  /** So does a file that the group or others may write to. */
  lemma WritableFileRefuses(
    fs: Fs, setting: Setting, rawRoots: seq<string>, contents: string, i: nat, depth: nat, dir: Inode, file: Inode,
    special: nat, user: nat, group: nat, other: nat)
    requires ManifestOf(contents).Some? && i < |ManifestOf(contents).value|
    requires ManifestOf(contents).value[i].components != []
    requires LiesBelowRoot(rawRoots, ManifestOf(contents).value[i], depth)
    requires EndsIn(fs, setting, ManifestOf(contents).value[i].components, depth, dir)
    requires var components := ManifestOf(contents).value[i].components;
      Denotes(fs, dir, components[|components| - 1], file)
    requires HasDigits(fs.nodes[file].mode, special, user, group, other)
    requires GrantsWriting(group) || GrantsWriting(other)
    ensures Prepared(fs, setting, rawRoots, contents).None?
  {
    var entry := ManifestOf(contents).value[i];
    ModeMeans(fs.nodes[file].mode, special, user, group, other);
    ClosedMeans(fs.nodes[file].mode);
    ParentExactly(fs, setting, entry.components, depth);
    LookupDenotes(fs, dir, Leaf(entry));
    RefusedEntryRefuses(fs, setting, rawRoots, contents, i, depth);
  }

  // ----- verification -----

  /** The inode exists in both with the same type, mode, owner and group. */
  ghost predicate LooksTheSame(before: Fs, now: Fs, inode: Inode) {
    && inode in before.nodes && inode in now.nodes
    && before.nodes[inode].kind == now.nodes[inode].kind && before.nodes[inode].mode == now.nodes[inode].mode
    && before.nodes[inode].owner == now.nodes[inode].owner && before.nodes[inode].group == now.nodes[inode].group
  }

  /** The way is one in both, through directories, and past a link, that look the same. */
  ghost predicate IsSameWay(
    before: Fs, now: Fs, setting: Setting, components: seq<string>, depth: nat, way: seq<Inode>)
  {
    && IsWay(before, setting, components, depth, way) && IsWay(now, setting, components, depth, way)
    && (forall k | 0 <= k < |way| :: LooksTheSame(before, now, way[k]))
    && (|way| > 4 ==> PassesSameLink(before, now, setting, components, way[..4]))
  }

  ghost predicate PassesSameLink(before: Fs, now: Fs, setting: Setting, components: seq<string>, way: seq<Inode>) {
    forall link ::
      && (IsManLink(before, setting, components, way, link) <==> IsManLink(now, setting, components, way, link))
      && (IsManLink(before, setting, components, way, link) ==> LooksTheSame(before, now, link))
  }

  lemma SameIdentity(before: Fs, now: Fs, a: Inode, b: Inode)
    requires a in before.nodes && b in now.nodes
    ensures IdentityOf(before, a) == IdentityOf(now, b) <==> a == b && LooksTheSame(before, now, a)
  {
  }

  lemma SameVia(before: Fs, now: Fs, setting: Setting, components: seq<string>, way: seq<Inode>)
    ensures Via(before, setting, components, way) == Via(now, setting, components, way) <==>
      PassesSameLink(before, now, setting, components, way)
  {
    var a, b := Via(before, setting, components, way), Via(now, setting, components, way);
    forall link, other
      | IsManLink(before, setting, components, way, link) && IsManLink(now, setting, components, way, other)
      ensures a == b <==> link == other && LooksTheSame(before, now, link)
    {
      OneLink(before, setting, components, way, link);
      OneLink(now, setting, components, way, other);
      SameIdentity(before, now, link, other);
    }
    forall link | IsManLink(before, setting, components, way, link) {
      OneLink(before, setting, components, way, link);
    }
    forall link | IsManLink(now, setting, components, way, link) {
      OneLink(now, setting, components, way, link);
    }
  }

  lemma OneLink(fs: Fs, setting: Setting, components: seq<string>, way: seq<Inode>, link: Inode)
    requires IsManLink(fs, setting, components, way, link)
    ensures Via(fs, setting, components, way) == [IdentityOf(fs, link)]
    ensures forall other | IsManLink(fs, setting, components, way, other) :: other == link
  {
  }

  ghost predicate AreNodes(fs: Fs, way: seq<Inode>) {
    forall k | 0 <= k < |way| :: way[k] in fs.nodes
  }

  /** A link is only passed between the fourth and the fifth directory. */
  lemma {:induction false} RecordedCount(fs: Fs, setting: Setting, components: seq<string>, way: seq<Inode>, k: nat)
    requires AreNodes(fs, way) && k <= |way|
    ensures |Recorded(fs, setting, components, way, k)| ==
      k + if k > 4 then |Via(fs, setting, components, way[..4])| else 0
  {
    if k > 0 {
      RecordedCount(fs, setting, components, way, k - 1);
    }
  }

  lemma SameCount(
    before: Fs, now: Fs, setting: Setting, components: seq<string>, a: seq<Inode>, b: seq<Inode>, k: nat)
    requires AreNodes(before, a) && AreNodes(now, b) && 0 < k <= |a| && k <= |b|
    requires |Recorded(before, setting, components, a, k)| == |Recorded(now, setting, components, b, k)|
    ensures |Recorded(before, setting, components, a, k - 1)| == |Recorded(now, setting, components, b, k - 1)|
  {
    RecordedCount(before, setting, components, a, k);
    RecordedCount(now, setting, components, b, k);
    RecordedCount(before, setting, components, a, k - 1);
    RecordedCount(now, setting, components, b, k - 1);
  }

  lemma LastTells(
    before: Fs, now: Fs, setting: Setting, components: seq<string>, a: seq<Inode>, b: seq<Inode>, k: nat)
    requires AreNodes(before, a) && AreNodes(now, b) && 0 < k <= |a| && k <= |b|
    requires Recorded(before, setting, components, a, k) == Recorded(now, setting, components, b, k)
    ensures Recorded(before, setting, components, a, k - 1) == Recorded(now, setting, components, b, k - 1)
    ensures IdentityOf(before, a[k - 1]) == IdentityOf(now, b[k - 1])
    ensures k == 5 ==> Via(before, setting, components, a[..4]) == Via(now, setting, components, b[..4])
  {
    SameCount(before, now, setting, components, a, b, k);
    LastRecorded(before, setting, components, a, k);
    LastRecorded(now, setting, components, b, k);
  }

  /** What is recorded tells the way and what its directories looked like. */
  lemma {:induction false} RecordedTells(
    before: Fs, now: Fs, setting: Setting, components: seq<string>, a: seq<Inode>, b: seq<Inode>, k: nat)
    requires AreNodes(before, a) && AreNodes(now, b) && k <= |a| && k <= |b|
    requires Recorded(before, setting, components, a, k) == Recorded(now, setting, components, b, k)
    ensures forall i | 0 <= i < k :: a[i] == b[i] && LooksTheSame(before, now, a[i])
    ensures k > 4 ==> Via(before, setting, components, a[..4]) == Via(now, setting, components, b[..4])
  {
    if k > 0 {
      LastTells(before, now, setting, components, a, b, k);
      RecordedTells(before, now, setting, components, a, b, k - 1);
      SameIdentity(before, now, a[k - 1], b[k - 1]);
    }
  }

  lemma LastRecorded(fs: Fs, setting: Setting, components: seq<string>, way: seq<Inode>, k: nat)
    requires AreNodes(fs, way) && 0 < k <= |way|
    ensures var all, most := Recorded(fs, setting, components, way, k), Recorded(fs, setting, components, way, k - 1);
      && |all| > |most| && all[..|most|] == most && all[|all| - 1] == IdentityOf(fs, way[k - 1])
      && (k == 5 ==> all[|most|..|all| - 1] == Via(fs, setting, components, way[..4]))
  {
  }

  lemma {:induction false} SameIsRecorded(
    before: Fs, now: Fs, setting: Setting, components: seq<string>, way: seq<Inode>, k: nat)
    requires k <= |way| && forall i | 0 <= i < |way| :: LooksTheSame(before, now, way[i])
    requires |way| > 4 ==> Via(before, setting, components, way[..4]) == Via(now, setting, components, way[..4])
    ensures Recorded(before, setting, components, way, k) == Recorded(now, setting, components, way, k)
  {
    if k > 0 {
      SameIsRecorded(before, now, setting, components, way, k - 1);
      SameIdentity(before, now, way[k - 1], way[k - 1]);
    }
  }

  /** What an inspection records of the file it finds. */
  lemma FoundIsRecorded(
    fs: Fs, setting: Setting, entry: ParsedPath, depth: nat, way: seq<Inode>, file: Inode)
    requires entry.components != [] && IsWay(fs, setting, entry.components, depth, way)
    requires |way| == |entry.components|
    requires Takes(InspectCandidate(fs, setting, entry, depth), way[|way| - 1], file)
    ensures var c := InspectCandidate(fs, setting, entry, depth).value;
      && c.entry == entry && c.depth == depth && file in fs.nodes && c.found.value.identity == IdentityOf(fs, file)
      && c.found.value.ancestors == Recorded(fs, setting, entry.components, way, |way|)
  {
    WayIsParent(fs, setting, entry.components, depth, way);
    FoundInParent(fs, setting, entry, depth);
  }

  lemma FoundInParent(fs: Fs, setting: Setting, entry: ParsedPath, depth: nat)
    requires entry.components != [] && InspectCandidate(fs, setting, entry, depth).Some?
    requires InspectCandidate(fs, setting, entry, depth).value.found.Some?
    ensures var c := InspectCandidate(fs, setting, entry, depth).value;
      var found, parent := c.found.value, ParentOf(fs, setting, entry.components, depth);
      && c.entry == entry && c.depth == depth && parent == Parent(found.parent, found.ancestors)
      && found.identity.inode in fs.nodes && found.identity == IdentityOf(fs, found.identity.inode)
  {
  }

  /** The program's parent is the end of the way with what is recorded of it. */
  lemma WayIsParent(fs: Fs, setting: Setting, components: seq<string>, depth: nat, way: seq<Inode>)
    requires IsWay(fs, setting, components, depth, way) && |way| == |components|
    ensures ParentOf(fs, setting, components, depth)
      == Parent(way[|way| - 1], Recorded(fs, setting, components, way, |way|))
  {
    var ancestors := ParentAlong(fs, setting, components, depth, way);
    ComesToEnd(fs, setting, components, depth, way, ancestors, ParentOf(fs, setting, components, depth));
  }

  lemma ParentHasWayBehind(fs: Fs, setting: Setting, components: seq<string>, depth: nat) returns (way: seq<Inode>)
    requires components != [] && ParentOf(fs, setting, components, depth).Parent?
    ensures IsWay(fs, setting, components, depth, way) && |way| == |components|
    ensures ParentOf(fs, setting, components, depth)
      == Parent(way[|way| - 1], Recorded(fs, setting, components, way, |way|))
  {
    var dir := ParentOf(fs, setting, components, depth).inode;
    ParentExactly(fs, setting, components, depth);
    assert EndsIn(fs, setting, components, depth, dir);
    way :| IsWay(fs, setting, components, depth, way) && |way| == |components| && way[|way| - 1] == dir;
    WayIsParent(fs, setting, components, depth, way);
  }

  /** The name denotes the same file, which looks the same. */
  ghost predicate IsSameFile(before: Fs, now: Fs, dir: Inode, name: string, file: Inode) {
    Denotes(now, dir, name, file) && LooksTheSame(before, now, file)
  }

  lemma VerifiedIn(before: Fs, now: Fs, setting: Setting, c: Candidate, ancestors: seq<FullIdentity>)
    requires c.entry.components != [] && c.found.Some? && c.found.value.identity.inode in before.nodes
    requires c.found.value.identity == IdentityOf(before, c.found.value.identity.inode)
    ensures IsVerified(now, setting, c) <==>
      && ParentOf(now, setting, c.entry.components, c.depth).Parent?
      && ParentOf(now, setting, c.entry.components, c.depth).ancestors == c.found.value.ancestors
      && IsSameFile(before, now, c.found.value.parent, Leaf(c.entry), c.found.value.identity.inode)
  {
    var dir, name := c.found.value.parent, Leaf(c.entry);
    LookupDenotes(now, dir, name);
    var found := Lookup(now, dir, name);
    if found.Some? {
      SameIdentity(before, now, c.found.value.identity.inode, found.value);
    }
  }

  /** A candidate that was inspected on `before` verifies on `now` exactly when the same
      way through directories that look the same leads to its file, which looks the same. */
  lemma VerifiedExactly(
    before: Fs, now: Fs, setting: Setting, entry: ParsedPath, depth: nat, way: seq<Inode>, file: Inode)
    requires entry.components != [] && IsWay(before, setting, entry.components, depth, way)
    requires |way| == |entry.components|
    requires Takes(InspectCandidate(before, setting, entry, depth), way[|way| - 1], file)
    ensures IsVerified(now, setting, InspectCandidate(before, setting, entry, depth).value) <==>
      && IsSameWay(before, now, setting, entry.components, depth, way)
      && IsSameFile(before, now, way[|way| - 1], entry.components[|way| - 1], file)
  {
    var c := InspectCandidate(before, setting, entry, depth).value;
    FoundIsRecorded(before, setting, entry, depth, way, file);
    VerifiedIn(before, now, setting, c, c.found.value.ancestors);
    SameWayIsRecorded(before, now, setting, entry.components, depth, way);
  }

  lemma SameWayIsRecorded(
    before: Fs, now: Fs, setting: Setting, components: seq<string>, depth: nat, way: seq<Inode>)
    requires IsWay(before, setting, components, depth, way) && |way| == |components|
    ensures var parent := ParentOf(now, setting, components, depth);
      parent.Parent? && parent.ancestors == Recorded(before, setting, components, way, |way|) <==>
        IsSameWay(before, now, setting, components, depth, way)
  {
    var parent := ParentOf(now, setting, components, depth);
    if IsSameWay(before, now, setting, components, depth, way) {
      if |way| > 4 {
        SameVia(before, now, setting, components, way[..4]);
      }
      SameIsRecorded(before, now, setting, components, way, |way|);
      WayIsParent(now, setting, components, depth, way);
    }
    if parent.Parent? && parent.ancestors == Recorded(before, setting, components, way, |way|) {
      RecordedIsSameWay(before, now, setting, components, depth, way);
    }
  }

  lemma RecordedIsSameWay(
    before: Fs, now: Fs, setting: Setting, components: seq<string>, depth: nat, way: seq<Inode>)
    requires IsWay(before, setting, components, depth, way) && |way| == |components|
    requires ParentOf(now, setting, components, depth).Parent?
    requires ParentOf(now, setting, components, depth).ancestors
      == Recorded(before, setting, components, way, |way|)
    ensures IsSameWay(before, now, setting, components, depth, way)
  {
    var other := ParentHasWayBehind(now, setting, components, depth);
    WayIsNodes(before, setting, components, depth, way);
    WayIsNodes(now, setting, components, depth, other);
    RecordedTells(before, now, setting, components, way, other, |way|);
    assert way == other;
    if |way| > 4 {
      SameVia(before, now, setting, components, way[..4]);
    }
  }

  lemma WayIsNodes(fs: Fs, setting: Setting, components: seq<string>, depth: nat, way: seq<Inode>)
    requires IsWay(fs, setting, components, depth, way)
    ensures AreNodes(fs, way)
  {
    forall k | 0 <= k < |way| ensures way[k] in fs.nodes {
      assert IsSafe(fs, setting, way[k], setting.isLive && 0 < k < depth);
    }
  }

  // ----- the removal -----

  /** What may happen at a candidate's turn: it has no file, or its name is not gone yet,
      and its directory may be changed and lets the name go. */
  ghost predicate LetsGoInTurn(fs: Fs, candidates: seq<Candidate>, i: nat)
    requires AreCandidates(candidates) && i < |candidates|
  {
    candidates[i].found.Some? ==>
      var (dir, name) := NameOf(candidates[i]);
      && (forall j | 0 <= j < i && candidates[j].found.Some? :: NameOf(candidates[j]) != (dir, name))
      && dir in fs.nodes && fs.nodes[dir].kind == Directory && fs.nodes[dir].writable
      && name !in fs.nodes[dir].kept && (dir, name) !in fs.mounts
  }

  /** The same but for these names: every inode, every mount and all other names. */
  ghost predicate HasAllBut(fs: Fs, now: Fs, gone: set<Name>) {
    && now.nodes.Keys == fs.nodes.Keys && now.mounts == fs.mounts && now.cacheRoot == fs.cacheRoot
    && forall dir | dir in fs.nodes ::
         && now.nodes[dir] == fs.nodes[dir].(entries := now.nodes[dir].entries)
         && (forall name :: name in now.nodes[dir].entries <==> name in fs.nodes[dir].entries && (dir, name) !in gone)
         && forall name | name in now.nodes[dir].entries ::
              now.nodes[dir].entries[name] == fs.nodes[dir].entries[name]
  }

  lemma WithoutMeans(fs: Fs, gone: set<Name>)
    ensures HasAllBut(fs, WithoutNames(fs, gone), gone)
  {
  }

  lemma GoesMeans(fs: Fs, candidates: seq<Candidate>, i: nat)
    requires AreCandidates(candidates) && i < |candidates|
    ensures Goes(fs, candidates, i) <==> LetsGoInTurn(fs, candidates, i)
  {
    if candidates[i].found.Some? && NameOf(candidates[i]) in Names(candidates[..i]) {
      var j :| 0 <= j < i && candidates[j].found.Some? && NameOf(candidates[j]) == NameOf(candidates[i]);
      assert !LetsGoInTurn(fs, candidates, i);
    }
    if Goes(fs, candidates, i) && candidates[i].found.Some? {
      forall j | 0 <= j < i && candidates[j].found.Some? ensures NameOf(candidates[j]) != NameOf(candidates[i]) {
        assert candidates[..i][j] == candidates[j];
      }
    }
  }

  /** The turns go up to the first candidate that is not let go, and whatever has gone by
      then is all that is missing; they all go exactly when every one is let go. */
  lemma RemovalMeans(fs: Fs, candidates: seq<Candidate>)
    requires AreCandidates(candidates)
    ensures var n := Progress(fs, candidates, 0);
      && (forall i | 0 <= i < n :: LetsGoInTurn(fs, candidates, i))
      && (n < |candidates| ==> !LetsGoInTurn(fs, candidates, n))
      && HasAllBut(fs, WithoutNames(fs, Names(candidates[..n])), Names(candidates[..n]))
      && (AllMayGo(fs, candidates) <==> forall i | 0 <= i < |candidates| :: LetsGoInTurn(fs, candidates, i))
  {
    var n := Progress(fs, candidates, 0);
    ProgressStops(fs, candidates, 0);
    forall i: nat | i < |candidates| ensures Goes(fs, candidates, i) <==> LetsGoInTurn(fs, candidates, i) {
      GoesMeans(fs, candidates, i);
    }
    WithoutMeans(fs, Names(candidates[..n]));
    AllMayGoMeans(fs, candidates);
  }
}
