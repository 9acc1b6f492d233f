/**
 How many system calls an install takes while each of them does all it is asked for, and
 that it fails exactly when one of just these fails.
 */
module InstallCalls {
  import opened Wrappers
  import opened InstallContent
  import opened CallPlans
  import opened InstallRun
  import opened InstallConditions
  import CleanupConditions
  import FileSystem
  import FileSystemView
  import PostBuildArtifacts
  import WorkspaceCleanup

  /** The 64 KiB pieces of a file. */
  ghost function Chunks(size: nat): nat {
    (size + 65_535) / 65_536
  }

  /** The call transfers as much as is ever asked for. */
  ghost predicate IsFull(o: Outcome) {
    o.Upto? && o.count >= 65_536
  }

  /** Call `j` is the first that is not full, and it fails. */
  ghost predicate FailsFirst(script: seq<Outcome>, j: nat) {
    j < |script| && script[j] == Failing && forall i | 0 <= i < j :: IsFull(script[i])
  }

  ghost predicate NeverFails(script: seq<Outcome>) {
    forall o | o in script :: IsFull(o)
  }

  ghost function Dropped(script: seq<Outcome>, k: nat): seq<Outcome> {
    if k <= |script| then script[k..] else []
  }

  /** Reading and writing take a call for every piece, and so does each side of a
      comparison. */
  ghost function CallsOf(step: Step): nat {
    match step
    case Call => 1
    case Copy(size) => 2 * Chunks(size)
    case Compare(size) => 2 * Chunks(size)
  }

  ghost function CallsIn(plan: seq<Step>): nat {
    if plan == [] then 0 else CallsIn(plan[..|plan| - 1]) + CallsOf(plan[|plan| - 1])
  }

  /** The steps pass when they do not reach the call that fails, and fail when they do. */
  ghost predicate Takes(pass: Option<seq<Outcome>>, script: seq<Outcome>, calls: nat) {
    && (NeverFails(script) ==> pass == Some(Dropped(script, calls)))
    && (forall j: nat | FailsFirst(script, j) ::
          if j < calls then pass == None else pass == Some(script[calls..]))
  }

  lemma FirstPiece(size: nat)
    requires size > 0
    ensures Chunks(size) == 1 + Chunks(size - Min(BUFFER_SIZE, size))
    ensures Chunks(0) == 0
  {
  }

  /** After two more calls. */
  lemma TwoMore(pass: Option<seq<Outcome>>, script: seq<Outcome>, calls: nat)
    requires |script| >= 2 && Takes(pass, script[2..], calls)
    requires IsFull(script[0]) && IsFull(script[1])
    ensures Takes(pass, script, calls + 2)
  {
    if NeverFails(script) {
      assert NeverFails(script[2..]);
    }
    forall j: nat | FailsFirst(script, j)
      ensures if j < calls + 2 then pass == None else pass == Some(script[calls + 2..])
    {
      assert j >= 2 && FailsFirst(script[2..], j - 2);
      assert j - 2 >= calls ==> script[2..][calls..] == script[calls + 2..];
    }
  }

  lemma AllAreFull(script: seq<Outcome>)
    ensures NeverFails(script) ==> forall i | 0 <= i < |script| :: IsFull(script[i])
  {
    forall i | 0 <= i < |script| ensures script[i] in script {
    }
  }

  /** A script that ends, or fails, within the next two calls. */
  lemma NotTwoMore(pass: Option<seq<Outcome>>, script: seq<Outcome>, calls: nat)
    requires calls >= 2
    requires |script| < 2 || !IsFull(script[0]) || !IsFull(script[1])
    requires FailsFirst(script, 0) || FailsFirst(script, 1) ==> pass == None
    requires |script| < 2 && NeverFails(script) ==> pass == Some([])
    ensures Takes(pass, script, calls)
  {
    AllAreFull(script);
    forall j: nat | FailsFirst(script, j) ensures j < 2 {
    }
  }

  lemma OneWrite(script: seq<Outcome>, count: nat)
    requires 0 < count <= 65_536
    ensures script == [] ==> WritePass(script, count) == Some([])
    ensures script != [] && IsFull(script[0]) ==> WritePass(script, count) == Some(script[1..])
    ensures script != [] && script[0].Failing? ==> WritePass(script, count) == None
  {
  }

  lemma OneCopy(script: seq<Outcome>, left: nat)
    requires left > 0
    ensures |script| >= 2 && IsFull(script[0]) && IsFull(script[1]) ==>
      CopyPass(script, left) == CopyPass(script[2..], left - Min(BUFFER_SIZE, left))
    ensures FailsFirst(script, 0) || FailsFirst(script, 1) ==> CopyPass(script, left) == None
    ensures |script| < 2 && NeverFails(script) ==> CopyPass(script, left) == Some([])
  {
    var count := Min(BUFFER_SIZE, left);
    if script != [] {
      OneWrite(script[1..], count);
      if IsFull(script[0]) {
        assert Min(script[0].count, Min(BUFFER_SIZE, left)) == count;
        assert |script| >= 2 ==> script[1..][0] == script[1] && script[1..][1..] == script[2..];
      }
      assert script[0] in script;
    }
  }

  lemma {:induction false} CopyTakes(script: seq<Outcome>, size: nat)
    ensures Takes(CopyPass(script, size), script, 2 * Chunks(size))
    decreases size
  {
    if size > 0 {
      var rest := size - Min(BUFFER_SIZE, size);
      FirstPiece(size);
      OneCopy(script, size);
      if |script| >= 2 && IsFull(script[0]) && IsFull(script[1]) {
        CopyTakes(script[2..], rest);
        TwoMore(CopyPass(script, size), script, 2 * Chunks(rest));
      } else {
        NotTwoMore(CopyPass(script, size), script, 2 * Chunks(size));
      }
    } else {
      NothingTaken(script);
    }
  }

  lemma NothingTaken(script: seq<Outcome>)
    ensures Takes(Some(script), script, 0)
  {
    assert script[0..] == script;
  }

  lemma OneRead(script: seq<Outcome>, count: nat)
    requires 0 < count <= 65_536
    ensures script == [] ==> FullRead(script, count) == Some([])
    ensures script != [] && IsFull(script[0]) ==> FullRead(script, count) == Some(script[1..])
    ensures script != [] && script[0].Failing? ==> FullRead(script, count) == None
  {
  }

  lemma OneComparison(script: seq<Outcome>, size: nat)
    requires size > 0
    ensures |script| >= 2 && IsFull(script[0]) && IsFull(script[1]) ==>
      FullPass(script, size) == FullPass(script[2..], size - Min(BUFFER_SIZE, size))
    ensures FailsFirst(script, 0) || FailsFirst(script, 1) ==> FullPass(script, size) == None
    ensures |script| < 2 && NeverFails(script) ==>
      FullPass(script, size) == FullPass([], size - Min(BUFFER_SIZE, size))
  {
    var count := Min(BUFFER_SIZE, size);
    OneRead(script, count);
    OneRead([], count);
    if script != [] {
      OneRead(script[1..], count);
      assert |script| >= 2 ==> script[1..][0] == script[1] && script[1..][1..] == script[2..];
      assert script[0] in script;
    }
  }

  lemma {:induction false} ComparedToEnd(size: nat)
    ensures FullPass([], size) == Some([])
  {
    if size > 0 {
      OneComparison([], size);
      ComparedToEnd(size - Min(BUFFER_SIZE, size));
    }
  }

  lemma {:induction false} CompareTakes(script: seq<Outcome>, size: nat)
    ensures Takes(FullPass(script, size), script, 2 * Chunks(size))
    decreases size
  {
    if size > 0 {
      var rest := size - Min(BUFFER_SIZE, size);
      FirstPiece(size);
      OneComparison(script, size);
      ComparedToEnd(rest);
      if |script| >= 2 && IsFull(script[0]) && IsFull(script[1]) {
        CompareTakes(script[2..], rest);
        TwoMore(FullPass(script, size), script, 2 * Chunks(rest));
      } else {
        NotTwoMore(FullPass(script, size), script, 2 * Chunks(size));
      }
    } else {
      NothingTaken(script);
    }
  }

  lemma CallTakes(script: seq<Outcome>)
    ensures Takes(CallPass(script), script, 1)
  {
    if script != [] {
      assert script[0] in script;
    }
  }

  lemma StepTakes(step: Step, script: seq<Outcome>)
    ensures Takes(StepPass(step, script), script, CallsOf(step))
  {
    match step
    case Call => CallTakes(script);
    case Copy(size) => CopyTakes(script, size);
    case Compare(size) => CompareTakes(script, size);
  }

  lemma TakesInTurn(
    first: Option<seq<Outcome>>, both: Option<seq<Outcome>>, script: seq<Outcome>, calls: nat, more: nat)
    requires Takes(first, script, calls)
    requires first.None? ==> both == None
    requires first.Some? ==> Takes(both, first.value, more)
    ensures Takes(both, script, calls + more)
  {
    if NeverFails(script) {
      assert NeverFails(Dropped(script, calls));
      assert Dropped(Dropped(script, calls), more) == Dropped(script, calls + more);
    }
    forall j: nat | FailsFirst(script, j)
      ensures if j < calls + more then both == None else both == Some(script[calls + more..])
    {
      if j >= calls {
        assert FailsFirst(script[calls..], j - calls);
        assert j >= calls + more ==> script[calls..][more..] == script[calls + more..];
      }
    }
  }

  lemma {:induction false} PlanTakes(plan: seq<Step>, script: seq<Outcome>)
    ensures Takes(Pass(plan, script), script, CallsIn(plan))
  {
    if plan == [] {
      NothingTaken(script);
    } else {
      var last := |plan| - 1;
      PlanTakes(plan[..last], script);
      var earlier := Pass(plan[..last], script);
      if earlier.Some? {
        StepTakes(plan[last], earlier.value);
      }
      TakesInTurn(earlier, Pass(plan, script), script, CallsIn(plan[..last]), CallsOf(plan[last]));
    }
  }

  // ----- counting the calls of an install -----

  lemma {:induction false} CallsAdd(a: seq<Step>, b: seq<Step>)
    ensures CallsIn(a + b) == CallsIn(a) + CallsIn(b)
  {
    if b == [] {
      assert a + b == a;
    } else {
      var last := |b| - 1;
      CallsAdd(a, b[..last]);
      assert (a + b)[..|a + b| - 1] == a + b[..last];
    }
  }

  /** A file is opened, sealed by a copy between two calls, and compared three times. */
  ghost function CallsForFile(size: nat): nat {
    1 + (2 + 2 * Chunks(size)) + 3 * (2 * Chunks(size))
  }

  ghost function CallsForRecord(e: Extent): nat {
    CallsForFile(e.archive) + if e.signature.Some? then CallsForFile(e.signature.value) else 0
  }

  ghost function CallsForRecords(extents: seq<Extent>): nat {
    if extents == [] then 0
    else CallsForRecords(extents[..|extents| - 1]) + CallsForRecord(extents[|extents| - 1])
  }

  ghost function CallsForCopy(e: Extent): nat {
    2 * Chunks(e.archive) + if e.signature.Some? then 2 * Chunks(e.signature.value) else 0
  }

  /** The chosen files are copied into the input. */
  ghost function CallsForCopies(extents: seq<Extent>, indices: seq<nat>): nat
    requires AreIndices(indices, |extents|)
  {
    if indices == [] then 0
    else
      CallsForCopies(extents, indices[..|indices| - 1]) + CallsForCopy(extents[indices[|indices| - 1]])
  }

  lemma StepsTake(task: Task, size: nat)
    ensures CallsIn(StepsFor(task, size)) ==
      match task
      case Opening => 1
      case Sealing => 2 + 2 * Chunks(size)
      case Comparing => 2 * Chunks(size)
      case Copying => 2 * Chunks(size)
  {
    match task
    case Opening => CallsInOne(Call);
    case Sealing =>
      CallsAdd([Call], [Copy(size)]);
      CallsAdd([Call] + [Copy(size)], [Call]);
      assert SealSteps(size) == [Call] + [Copy(size)] + [Call];
      CallsInOne(Call);
      CallsInOne(Copy(size));
    case Comparing => CallsInOne(Compare(size));
    case Copying => CallsInOne(Copy(size));
  }

  lemma CallsInOne(step: Step)
    ensures CallsIn([step]) == CallsOf(step)
  {
    assert [step][..0] == [];
  }

  lemma RecordTakes(task: Task, e: Extent)
    ensures CallsIn(Steps(task, e)) ==
      CallsIn(StepsFor(task, e.archive))
      + if e.signature.Some? then CallsIn(StepsFor(task, e.signature.value)) else 0
  {
    CallsAdd(
      StepsFor(task, e.archive), if e.signature.Some? then StepsFor(task, e.signature.value) else []);
  }

  /** The calls for one record in all tasks but the last copy. */
  lemma RecordTakesAll(e: Extent)
    ensures CallsIn(Steps(Opening, e)) + CallsIn(Steps(Sealing, e)) + 3 * CallsIn(Steps(Comparing, e))
      == CallsForRecord(e)
    ensures CallsIn(Steps(Copying, e)) == CallsForCopy(e)
  {
    RecordTakes(Opening, e);
    RecordTakes(Sealing, e);
    RecordTakes(Comparing, e);
    RecordTakes(Copying, e);
    StepsTake(Opening, e.archive);
    StepsTake(Sealing, e.archive);
    StepsTake(Comparing, e.archive);
    StepsTake(Copying, e.archive);
    if e.signature.Some? {
      StepsTake(Opening, e.signature.value);
      StepsTake(Sealing, e.signature.value);
      StepsTake(Comparing, e.signature.value);
      StepsTake(Copying, e.signature.value);
    }
  }

  lemma {:induction false} RecordsTake(extents: seq<Extent>)
    ensures CallsIn(Plan(Opening, extents)) + CallsIn(Plan(Sealing, extents)) + 3 * CallsIn(Plan(Comparing, extents))
      == CallsForRecords(extents)
  {
    if extents != [] {
      var last := |extents| - 1;
      RecordsTake(extents[..last]);
      RecordTakesAll(extents[last]);
      CallsAdd(Plan(Opening, extents[..last]), Steps(Opening, extents[last]));
      CallsAdd(Plan(Sealing, extents[..last]), Steps(Sealing, extents[last]));
      CallsAdd(Plan(Comparing, extents[..last]), Steps(Comparing, extents[last]));
    }
  }

  lemma {:induction false} CopiesTake(extents: seq<Extent>, indices: seq<nat>)
    requires AreIndices(indices, |extents|)
    ensures CallsIn(Plan(Copying, ChosenExtents(extents, indices))) == CallsForCopies(extents, indices)
  {
    if indices != [] {
      var last := |indices| - 1;
      CopiesTake(extents, indices[..last]);
      var chosen := ChosenExtents(extents, indices);
      assert chosen[..last] == ChosenExtents(extents, indices[..last]);
      RecordTakesAll(extents[indices[last]]);
      CallsAdd(Plan(Copying, chosen[..last]), Steps(Copying, chosen[last]));
    }
  }

  /** All files, and the input between the call that makes it and the one that seals it. */
  lemma PlanOfInstall(extents: seq<Extent>, indices: seq<nat>)
    requires AreIndices(indices, |extents|)
    ensures CallsIn(InstallPlan(extents, indices)) ==
      CallsForRecords(extents) + 2 + CallsForCopies(extents, indices)
  {
    var copies := Plan(Copying, ChosenExtents(extents, indices));
    RecordsTake(extents);
    CopiesTake(extents, indices);
    CallsInOne(Call);
    CallsAdd(copies, [Call]);
    CallsAdd([Call], copies + [Call]);
    CallsAdd(CopyPlan(extents, indices), Plan(Comparing, extents));
    CallsAdd(Plan(Comparing, extents), BuildPlan(extents, indices));
    CallsAdd(Plan(Sealing, extents), Plan(Comparing, extents));
    CallsAdd(FirstBindPlan(extents), InputPlan(extents, indices));
    CallsAdd(Plan(Opening, extents), FirstBindPlan(extents) + InputPlan(extents, indices));
  }

  /** The sizes are those of the accepted files' bytes. */
  ghost predicate HasSizes(
    e: Extent, contents: map<FileSystem.Inode, Bytes>, i: PostBuildArtifacts.Inspected)
  {
    && (i.artifact.inode in contents ==> e.archive == |contents[i.artifact.inode]|)
    && (e.signature.Some? <==> i.signature.Some?)
    && (i.signature.Some? && i.signature.value.inode in contents ==>
          e.signature == Some(|contents[i.signature.value.inode]|))
  }

  lemma ExtentsHaveSizes(
    contents: map<FileSystem.Inode, Bytes>, accepted: seq<PostBuildArtifacts.Inspected>)
    ensures var extents := ExtentsOf(contents, accepted);
      forall i | 0 <= i < |accepted| :: HasSizes(extents[i], contents, accepted[i])
  {
  }

  ghost function CallsOfInstall(extents: seq<Extent>, indices: seq<nat>): nat
    requires AreIndices(indices, |extents|)
  {
    CallsForRecords(extents) + 2 + CallsForCopies(extents, indices)
  }

  /** An install takes so many calls: it fails when any of these is the first that fails,
      and none after them matters. */
  lemma InstallTakes(
    contents: map<FileSystem.Inode, Bytes>, accepted: seq<PostBuildArtifacts.Inspected>, indices: seq<nat>,
    script: seq<Outcome>)
    requires AreIndices(indices, |accepted|)
    ensures Takes(
      InstallPass(contents, accepted, indices, script), script,
      CallsOfInstall(ExtentsOf(contents, accepted), indices))
  {
    var extents := ExtentsOf(contents, accepted);
    PlanOfInstall(extents, indices);
    PlanTakes(InstallPlan(extents, indices), script);
  }

  // ----- one install from its inputs -----

  /** The install may go through and takes no more than these calls. */
  ghost predicate Suffices(
    world: World, setup: Setup, contents: map<FileSystem.Inode, Bytes>, indices: seq<nat>,
    accepted: seq<PostBuildArtifacts.Inspected>, calls: nat)
    requires |world.checks| == 8
  {
    && MayInstallThese(world, setup, contents, indices, accepted) && AreIndices(indices, |accepted|)
    && CallsOfInstall(ExtentsOf(contents, accepted), indices) <= calls
  }

  /** The descriptor of a workspace, alone in the table. */
  const WORKSPACE_DESCRIPTOR: nat := 3

  /** One install, from the file systems it meets, the bytes of the files and the outcomes
      of its calls to what the installer gets and the file system that is left. */
  method InstallOnce(
    world: World, setup: Setup, contents: map<FileSystem.Inode, Bytes>, indices: seq<nat>, script: seq<Outcome>)
    returns (outcome: InstallOutcome, left: FileSystem.Fs)
    requires |world.checks| == 8
    requires CleanupConditions.AreTrees(world.checks[7]) && CleanupConditions.AreTrees(world.afterPreflight)
    requires FileSystemView.NamesDenote(world.afterPreflight)
    ensures NeverFails(script) ==>
      (outcome.Installed? <==> exists accepted :: MayInstallThese(world, setup, contents, indices, accepted))
    ensures forall j: nat | FailsFirst(script, j) ::
      outcome.Installed? <==> exists accepted :: Suffices(world, setup, contents, indices, accepted, j)
    ensures outcome.Installed? ==>
      forall accepted | MayInstallThese(world, setup, contents, indices, accepted) ::
        && AreIndices(indices, |accepted|) && outcome.input == Chosen(contents, accepted, indices)
        && (outcome.removal.Some? <==> StillHasBuilt(world.checks[7], setup, accepted))
    ensures outcome.Installed? && outcome.removal == Some(WorkspaceCleanup.Cleaned) ==>
      CleanupConditions.LacksWorkspace(
        world.afterPreflight, left, setup.place.root, setup.place.name, setup.place.directory)
    ensures !outcome.Installed? ==> left == world.inspected
  {
    outcome, left := Begin(world, setup, contents, indices, script);
    SuccessMeans(world, setup, contents, indices, script);
    if outcome.Installed? {
      InstalledMeans(world, setup, contents, indices, outcome);
    }
    if outcome.Installed? && outcome.removal == Some(WorkspaceCleanup.Cleaned) {
      CleanupConditions.GoneIsLacking(
        world.afterPreflight, setup.place.root, setup.place.name, setup.place.directory);
    }
  }

  /** The same with objects made for the occasion, and in the terms of `Install`. */
  method Begin(
    world: World, setup: Setup, contents: map<FileSystem.Inode, Bytes>, indices: seq<nat>, script: seq<Outcome>)
    returns (outcome: InstallOutcome, left: FileSystem.Fs)
    requires |world.checks| == 8
    requires CleanupConditions.AreTrees(world.checks[7]) && CleanupConditions.AreTrees(world.afterPreflight)
    requires FileSystemView.NamesDenote(world.afterPreflight)
    ensures outcome.Installed? <==> Succeeds(world, setup, contents, indices, script)
    ensures outcome.Installed? ==>
      && Validated(world, setup).Accepted? && AreIndices(indices, |Validated(world, setup).artifacts|)
      && outcome.input == Chosen(contents, Validated(world, setup).artifacts, indices)
      && outcome.removal == RemovalOf(world, setup, Validated(world, setup).artifacts)
    ensures outcome.Installed? && outcome.removal == Some(WorkspaceCleanup.Cleaned) ==>
      WorkspaceIsGone(world, setup, left)
    ensures !outcome.Installed? ==> left == world.inspected
  {
    ghost var shape := CleanupConditions.TreesHaveShape(world.checks[7]);
    ghost var shapeAfter := CleanupConditions.TreesHaveShape(world.afterPreflight);
    FileSystemView.ClosedMeans(world.afterPreflight);
    var fileSystem := new FileSystem.Kernel(world.inspected, setup.effectiveUser);
    var descriptors := new Kernel(map[WORKSPACE_DESCRIPTOR := File([], false, false)], script);
    var workspace := new WorkspaceCleanup.ArtifactWorkspace(
      setup.place.root, setup.place.name, setup.place.directory, setup.place.owner);
    var artifacts;
    outcome, artifacts := Install(
      world, setup, contents, indices, fileSystem, workspace, descriptors, WORKSPACE_DESCRIPTOR, shape, shapeAfter);
    left := fileSystem.fs;
  }

  ghost predicate Succeeds(
    world: World, setup: Setup, contents: map<FileSystem.Inode, Bytes>, indices: seq<nat>, script: seq<Outcome>)
  {
    && MayInstall(world, setup, contents, indices)
    && InstallPass(contents, Validated(world, setup).artifacts, indices, script).Some?
  }

  lemma SuccessMeans(
    world: World, setup: Setup, contents: map<FileSystem.Inode, Bytes>, indices: seq<nat>, script: seq<Outcome>)
    requires |world.checks| == 8
    ensures NeverFails(script) ==>
      (Succeeds(world, setup, contents, indices, script) <==>
        exists accepted :: MayInstallThese(world, setup, contents, indices, accepted))
    ensures forall j: nat | FailsFirst(script, j) ::
      Succeeds(world, setup, contents, indices, script) <==>
        exists accepted :: Suffices(world, setup, contents, indices, accepted, j)
  {
    MayInstallMeans(world, setup, contents, indices);
    if MayInstall(world, setup, contents, indices) {
      var accepted := Validated(world, setup).artifacts;
      InstallTakes(contents, accepted, indices, script);
      forall j: nat | FailsFirst(script, j)
        ensures Succeeds(world, setup, contents, indices, script) <==>
          Suffices(world, setup, contents, indices, accepted, j)
      {
      }
    }
  }

  lemma InstalledMeans(
    world: World, setup: Setup, contents: map<FileSystem.Inode, Bytes>, indices: seq<nat>, outcome: InstallOutcome)
    requires |world.checks| == 8 && MayInstall(world, setup, contents, indices) && outcome.Installed?
    requires outcome.input == Chosen(contents, Validated(world, setup).artifacts, indices)
    requires outcome.removal == RemovalOf(world, setup, Validated(world, setup).artifacts)
    ensures forall accepted | MayInstallThese(world, setup, contents, indices, accepted) ::
      && AreIndices(indices, |accepted|) && outcome.input == Chosen(contents, accepted, indices)
      && (outcome.removal.Some? <==> StillHasBuilt(world.checks[7], setup, accepted))
  {
    MayInstallMeans(world, setup, contents, indices);
    forall accepted | MayInstallThese(world, setup, contents, indices, accepted)
      ensures Validated(world, setup) == PostBuildArtifacts.Accepted(accepted)
      ensures outcome.removal.Some? <==> StillHasBuilt(world.checks[7], setup, accepted)
    {
      RemovalMeans(world, setup, accepted);
    }
  }
}
