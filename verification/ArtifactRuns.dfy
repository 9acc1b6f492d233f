/**
 Whole runs of a validated artifact set: any operations in any order, moves to new
 objects and foreign rewrites of the originals among them.  A run leaves a history
 of snapshots, one before and one after each operation; the results about runs are
 results about histories.
 */
module ArtifactRuns {
  import opened Wrappers
  import opened InstallContent
  import opened CallPlans
  import opened ArtifactSet

  datatype Operation =
    | Bind
    | Recheck
    | BuildInstallInput(indices: seq<nat>)
    | AskPath(index: nat)
    | MoveOut
    | Retain
    | Cleanup(workspaceCleans: bool)
    | RewriteFiles(contents: map<nat, Bytes>)

  function Rewritten(file: File, fd: nat, contents: map<nat, Bytes>): File {
    if fd in contents && !file.isSealed then file.(content := contents[fd]) else file
  }

  /** Somebody else rewrites files: everything that is not sealed may change. */
  method Rewrite(kernel: Kernel, contents: map<nat, Bytes>)
    modifies kernel`files
    ensures kernel.files.Keys == old(kernel.files.Keys)
    ensures forall fd | fd in old(kernel.files) :: kernel.files[fd] == Rewritten(old(kernel.files)[fd], fd, contents)
  {
    kernel.files := map fd | fd in kernel.files :: Rewritten(kernel.files[fd], fd, contents);
  }

  // ----- histories -----

  datatype Snapshot =
    Snapshot(records: seq<Record>, files: map<nat, File>, input: Option<nat>, state: OwnershipState)

  ghost function Now(s: ValidatedPackageArtifactSet): Snapshot
    reads s, s.kernel
  {
    Snapshot(s.records, s.kernel.files, s.installInput, s.state)
  }

  ghost predicate SnapshotValid(s: Snapshot) {
    RecordsValid(s.records, s.files) && (!s.state.Active? ==> s.records == [] && s.input.None?)
  }

  /** The sealed copies hold, in `files`, what the originals held in `source`. */
  ghost predicate HoldsBytesOf(r: Record, files: map<nat, File>, source: map<nat, File>) {
    && r.sealedArtifact.Some? && HoldsSame(r.sealedArtifact, files, r.artifact, source)
    && (r.hasSignature ==> HoldsSame(r.sealedSignature, files, r.signature, source))
  }

  ghost predicate HoldsSame(
    copy: Option<nat>, files: map<nat, File>, original: Option<nat>, source: map<nat, File>)
  {
    && copy.Some? && copy.value in files && original.Some? && original.value in source
    && files[copy.value].content == source[original.value].content
  }

  /** What one operation may do to a record: a seal stays for good, and a new one
      comes from a bind and holds what the originals held at that step. */
  ghost predicate RecordStep(
    before: Record, source: map<nat, File>, operation: Operation, after: Record, files: map<nat, File>)
  {
    && OnlySeals(before, after)
    && (before.sealedArtifact.Some? ==> CopiesKept(before, source, files))
    && (before.sealedArtifact.None? && after.sealedArtifact.Some? ==>
          operation.Bind? && HoldsBytesOf(after, files, source))
  }

  ghost predicate RecordsStep(before: Snapshot, operation: Operation, after: Snapshot) {
    after.state.Active? ==>
      && |after.records| == |before.records|
      && forall i | 0 <= i < |after.records| ::
           RecordStep(before.records[i], before.files, operation, after.records[i], after.files)
  }

  /** The install input is the sealed concatenation of the chosen sealed copies. */
  ghost predicate BuiltFrom(s: Snapshot, indices: seq<nat>)
    requires RecordsValid(s.records, s.files)
  {
    && (forall i | 0 <= i < |s.records| :: s.records[i].sealedArtifact.Some?)
    && (forall j | 0 <= j < |indices| :: indices[j] < |s.records|)
    && s.input.Some? && s.input.value in s.files
    && s.files[s.input.value] == File(InstallInput(s.records, s.files, indices), true, true)
  }

  ghost predicate InputStep(before: Snapshot, operation: Operation, after: Snapshot)
    requires RecordsValid(after.records, after.files)
  {
    after.input.Some? ==>
      || (after.input == before.input && SameFile(after.input, before.files, after.files))
      || (operation.BuildInstallInput? && BuiltFrom(after, operation.indices))
  }

  ghost function AnswerTo(before: Snapshot, operation: Operation): Option<string> {
    if operation.AskPath? && before.state.Active? && operation.index < |before.records|
    then Some(before.records[operation.index].leaf)
    else None
  }

  ghost predicate Step(before: Snapshot, operation: Operation, answer: Option<string>, after: Snapshot) {
    && SnapshotValid(before) && SnapshotValid(after)
    && RecordsStep(before, operation, after)
    && InputStep(before, operation, after)
    && (after.state.Active? ==> before.state.Active?)
    && answer == AnswerTo(before, operation)
  }

  ghost predicate IsRun(history: seq<Snapshot>, operations: seq<Operation>, answers: seq<Option<string>>) {
    && |history| == |operations| + 1 && |answers| == |operations|
    && SnapshotValid(history[0])
    && forall k | 0 <= k < |operations| :: Step(history[k], operations[k], answers[k], history[k + 1])
  }

  // ----- performing operations -----

  /** Moves a set to a new object; destroying what is left of it closes nothing. */
  method MoveAndDestroy(from: ValidatedPackageArtifactSet) returns (next: ValidatedPackageArtifactSet)
    requires from.Valid()
    modifies from, from.kernel
    ensures fresh(next) && next.Valid() && next.kernel == from.kernel
    ensures next.owner == old(from.owner) && Now(next) == old(Now(from))
  {
    next := new ValidatedPackageArtifactSet.Move(from);
    from.Destroy(false);
    assert next.kernel.files == old(from.kernel.files);
  }

  /** The same records, on files that kept everything sealed. */
  lemma NothingNew(before: Snapshot, operation: Operation, answer: Option<string>, after: Snapshot)
    requires SnapshotValid(before) && after == before.(files := after.files) && RecordsValid(after.records, after.files)
    requires forall fd | fd in before.files && before.files[fd].isSealed ::
               fd in after.files && after.files[fd] == before.files[fd]
    requires before.input.Some? ==> before.input.value in before.files && before.files[before.input.value].isSealed
    requires answer == AnswerTo(before, operation)
    ensures Step(before, operation, answer, after)
  {
    forall i | 0 <= i < |after.records|
      ensures RecordStep(before.records[i], before.files, operation, after.records[i], after.files)
    {
      assert RecordValid(before.records[i], before.files);
    }
  }

  lemma RewriteKeeps(records: seq<Record>, before: map<nat, File>, after: map<nat, File>)
    requires RecordsValid(records, before) && before.Keys == after.Keys
    requires forall fd | fd in before && before[fd].isSealed :: after[fd] == before[fd]
    ensures RecordsValid(records, after)
  {
    forall i | 0 <= i < |records| ensures RecordValid(records[i], after) {
      assert RecordValid(records[i], before);
    }
  }

  lemma BindStep(before: Snapshot, after: Snapshot)
    requires SnapshotValid(before) && SnapshotValid(after)
    requires Bound(before.records, before.files, after.records, after.files)
    requires after.state == before.state && after.input == before.input
    requires before.input.Some? ==> before.input.value in before.files
    ensures Step(before, Bind, None, after)
  {
    forall i | 0 <= i < |after.records|
      ensures RecordStep(before.records[i], before.files, Bind, after.records[i], after.files)
    {
      assert RecordValid(before.records[i], before.files);
      assert RecordValid(after.records[i], after.files);
    }
  }

  lemma BuildStep(before: Snapshot, indices: seq<nat>, after: Snapshot)
    requires SnapshotValid(before) && SnapshotValid(after)
    requires after.records == before.records && after.state == before.state
    requires forall i | 0 <= i < |before.records| :: SameFor(before.records[i], before.files, after.files)
    requires
      || BuiltFrom(after, indices)
      || (after.files == before.files && after.input == before.input
          && (before.input.Some? ==> before.input.value in before.files))
    ensures Step(before, BuildInstallInput(indices), None, after)
  {
    KeptFor(before.records, before.files, after.files);
    forall i | 0 <= i < |after.records|
      ensures RecordStep(
                before.records[i], before.files, BuildInstallInput(indices), after.records[i], after.files)
    {
      assert CopiesKept(before.records[i], before.files, after.files);
    }
  }

  method PerformCleanup(current: ValidatedPackageArtifactSet, cleans: bool)
    requires current.Valid()
    modifies current, current.kernel
    ensures current.Valid()
    ensures current.kernel.files.Keys - current.owner.Keys == old(current.kernel.files.Keys - current.owner.Keys)
    ensures Step(old(Now(current)), Cleanup(cleans), None, Now(current))
  {
    ghost var before := Now(current);
    var report := current.CleanupWorkspace(cleans);
    if report.NotOwned? || report.NotValid? {
      NothingNew(before, Cleanup(cleans), None, Now(current));
    }
  }

  method PerformBind(current: ValidatedPackageArtifactSet)
    requires current.Valid()
    modifies current, current.kernel
    ensures current.Valid()
    ensures current.kernel.files.Keys - current.owner.Keys == old(current.kernel.files.Keys - current.owner.Keys)
    ensures Step(old(Now(current)), Bind, None, Now(current))
  {
    ghost var before := Now(current);
    var _ := current.BindInstallContent();
    BindStep(before, Now(current));
  }

  /** One operation on a set; a move continues with a new object. */
  method Perform(current: ValidatedPackageArtifactSet, operation: Operation)
    returns (next: ValidatedPackageArtifactSet, answer: Option<string>)
    requires current.Valid()
    modifies current, current.kernel
    ensures next.Valid() && next.kernel == current.kernel && (next == current || fresh(next))
    ensures next.kernel.files.Keys - next.owner.Keys == old(current.kernel.files.Keys - current.owner.Keys)
    ensures Step(old(Now(current)), operation, answer, Now(next))
  {
    ghost var before := Now(current);
    next, answer := current, None;
    match operation {
      case Bind =>
        PerformBind(current);
      case Recheck =>
        var _ := current.RequireInstallContent();
        NothingNew(before, operation, None, Now(next));
      case BuildInstallInput(indices) =>
        var _ := current.CreateInstallInput(indices);
        BuildStep(before, indices, Now(next));
      case AskPath(index) =>
        answer := current.PathAt(index);
        NothingNew(before, operation, answer, Now(next));
      case MoveOut =>
        next := MoveAndDestroy(current);
        NothingNew(before, operation, None, Now(next));
      case Retain =>
        var _ := current.RetainWorkspace();
        NothingNew(before, operation, None, Now(next));
      case Cleanup(cleans) =>
        PerformCleanup(current, cleans);
      case RewriteFiles(contents) =>
        Rewrite(current.kernel, contents);
        RewriteKeeps(before.records, before.files, current.kernel.files);
        NothingNew(before, operation, None, Now(next));
    }
  }

  /** Any operations on a set, with moves to new objects.  Nothing outside the set
      is opened or closed, and every step is one of the allowed steps. */
  method Run(start: ValidatedPackageArtifactSet, operations: seq<Operation>)
    returns (end: ValidatedPackageArtifactSet, answers: seq<Option<string>>, ghost history: seq<Snapshot>)
    requires start.Valid()
    modifies start, start.kernel
    ensures end.Valid() && end.kernel == start.kernel && (end == start || fresh(end))
    ensures end.kernel.files.Keys - end.owner.Keys == old(start.kernel.files.Keys - start.owner.Keys)
    ensures IsRun(history, operations, answers)
    ensures history[0] == old(Now(start)) && history[|operations|] == Now(end)
  {
    var kernel := start.kernel;
    end, answers, history := start, [], [Now(start)];
    for i := 0 to |operations|
      invariant end.Valid() && end.kernel == kernel && (end == start || fresh(end))
      invariant kernel.files.Keys - end.owner.Keys == old(kernel.files.Keys - start.owner.Keys)
      invariant IsRun(history, operations[..i], answers)
      invariant history[0] == old(Now(start)) && history[i] == Now(end)
    {
      var answer;
      end, answer := Perform(end, operations[i]);
      answers, history := answers + [answer], history + [Now(end)];
    }
    assert operations[..|operations|] == operations;
  }

  /** A whole life: after any operations and destruction, every descriptor the set
      ever owned is closed, once, and no other descriptor was closed or leaked. */
  method RunAndDestroy(start: ValidatedPackageArtifactSet, operations: seq<Operation>, workspaceCleans: bool)
    requires start.Valid()
    modifies start, start.kernel
    ensures start.kernel.files.Keys == old(start.kernel.files.Keys - start.owner.Keys)
  {
    var end, _, _ := Run(start, operations);
    end.Destroy(workspaceCleans);
  }

  // ----- what every run keeps -----

  /** A copy sealed during a run holds what its original held at the bind that
      sealed it, however often the original was rewritten since. */
  lemma {:induction false} SealedAtBind(
    history: seq<Snapshot>, operations: seq<Operation>, answers: seq<Option<string>>, n: nat, i: nat)
    returns (k: nat)
    requires IsRun(history, operations, answers) && n <= |operations|
    requires i < |history[n].records| && history[n].records[i].sealedArtifact.Some?
    requires forall r | r in history[0].records :: r.sealedArtifact.None?
    ensures k < n && operations[k].Bind?
    ensures i < |history[k].records| && history[k].records[i].sealedArtifact.None?
    ensures OnlySeals(history[k].records[i], history[n].records[i])
    ensures HoldsBytesOf(history[n].records[i], history[n].files, history[k].files)
  {
    if n > 0 {
      var m := n - 1;
      assert Step(history[m], operations[m], answers[m], history[m + 1]);
      assert RecordStep(
          history[m].records[i], history[m].files, operations[m], history[n].records[i], history[n].files);
      if history[m].records[i].sealedArtifact.None? {
        k := m;
      } else {
        k := SealedAtBind(history, operations, answers, m, i);
      }
    }
  }

  lemma BuiltStays(before: Snapshot, operation: Operation, answer: Option<string>, after: Snapshot, indices: seq<nat>)
    requires Step(before, operation, answer, after) && BuiltFrom(before, indices)
    requires after.input.Some? && after.input == before.input && SameFile(after.input, before.files, after.files)
    ensures BuiltFrom(after, indices)
  {
    forall i | 0 <= i < |after.records|
      ensures after.records[i] == before.records[i] && CopiesKept(before.records[i], before.files, after.files)
    {
      assert RecordStep(before.records[i], before.files, operation, after.records[i], after.files);
    }
    assert after.records == before.records;
    InputKept(before.records, before.files, after.files, indices);
  }

  /** The install input of a run always is the concatenation of the sealed copies
      chosen when it was built. */
  lemma {:induction false} InputIsConcatenation(
    history: seq<Snapshot>, operations: seq<Operation>, answers: seq<Option<string>>, n: nat)
    returns (k: nat)
    requires IsRun(history, operations, answers) && n <= |operations|
    requires history[n].input.Some? && history[0].input.None?
    ensures k < n && operations[k].BuildInstallInput?
    ensures SnapshotValid(history[n]) && BuiltFrom(history[n], operations[k].indices)
  {
    if n > 0 {
      var m := n - 1;
      assert Step(history[m], operations[m], answers[m], history[m + 1]);
      if operations[m].BuildInstallInput? && BuiltFrom(history[n], operations[m].indices) {
        k := m;
      } else {
        k := InputIsConcatenation(history, operations, answers, m);
        BuiltStays(history[m], operations[m], answers[m], history[n], operations[k].indices);
      }
    }
  }

  ghost function ContentOf(fd: Option<nat>, files: map<nat, File>): Bytes {
    if fd.Some? && fd.value in files then files[fd.value].content else []
  }

  /** What the originals of the chosen records held at the given steps. */
  ghost function OriginalBytes(history: seq<Snapshot>, binds: seq<nat>, indices: seq<nat>): Bytes
    requires forall i | 0 <= i < |binds| :: binds[i] < |history| && i < |history[binds[i]].records|
    requires forall j | 0 <= j < |indices| :: indices[j] < |binds|
  {
    if indices == [] then []
    else
      var last := |indices| - 1;
      OriginalBytes(history, binds, indices[..last])
      + OriginalOf(history[binds[indices[last]]], indices[last])
  }

  ghost function OriginalOf(s: Snapshot, i: nat): Bytes
    requires i < |s.records|
  {
    var r := s.records[i];
    ContentOf(r.artifact, s.files) + (if r.hasSignature then ContentOf(r.signature, s.files) else [])
  }

  /** `binds[i]` is the bind that sealed record `i`. */
  ghost predicate BoundAt(history: seq<Snapshot>, operations: seq<Operation>, n: nat, binds: seq<nat>)
    requires n <= |operations| < |history|
  {
    && |binds| <= |history[n].records|
    && forall i | 0 <= i < |binds| ::
         && binds[i] < n && operations[binds[i]].Bind?
         && i < |history[binds[i]].records| && history[binds[i]].records[i].sealedArtifact.None?
         && OnlySeals(history[binds[i]].records[i], history[n].records[i])
         && HoldsBytesOf(history[n].records[i], history[n].files, history[binds[i]].files)
  }

  lemma {:induction false} BindOfEach(
    history: seq<Snapshot>, operations: seq<Operation>, answers: seq<Option<string>>, n: nat, count: nat)
    returns (binds: seq<nat>)
    requires IsRun(history, operations, answers) && n <= |operations| && count <= |history[n].records|
    requires forall i | 0 <= i < |history[n].records| :: history[n].records[i].sealedArtifact.Some?
    requires forall r | r in history[0].records :: r.sealedArtifact.None?
    ensures |binds| == count && BoundAt(history, operations, n, binds)
  {
    binds := [];
    if count > 0 {
      var earlier := BindOfEach(history, operations, answers, n, count - 1);
      var k := SealedAtBind(history, operations, answers, n, count - 1);
      binds := earlier + [k];
    }
  }

  lemma {:induction false} SealedAreOriginals(
    history: seq<Snapshot>, operations: seq<Operation>, n: nat, binds: seq<nat>, indices: seq<nat>)
    requires n <= |operations| < |history| && BoundAt(history, operations, n, binds)
    requires |binds| == |history[n].records| && RecordsValid(history[n].records, history[n].files)
    requires forall i | 0 <= i < |history[n].records| :: history[n].records[i].sealedArtifact.Some?
    requires forall j | 0 <= j < |indices| :: indices[j] < |binds|
    ensures InstallInput(history[n].records, history[n].files, indices) == OriginalBytes(history, binds, indices)
  {
    if indices != [] {
      var last := |indices| - 1;
      SealedAreOriginals(history, operations, n, binds, indices[..last]);
      SealedIsOriginal(history, operations, n, binds, indices[last]);
    }
  }

  lemma SealedIsOriginal(
    history: seq<Snapshot>, operations: seq<Operation>, n: nat, binds: seq<nat>, i: nat)
    requires n <= |operations| < |history| && BoundAt(history, operations, n, binds) && i < |binds|
    requires RecordValid(history[n].records[i], history[n].files)
    requires history[n].records[i].sealedArtifact.Some?
    ensures SealedBytes(history[n].records[i], history[n].files) == OriginalOf(history[binds[i]], i)
  {
    assert OnlySeals(history[binds[i]].records[i], history[n].records[i]);
  }

  /** What an installer is given at any point of a run on a freshly validated set:
      for the records asked for, in the order asked for, exactly the bytes their
      originals held at the bind that sealed them. */
  lemma InstallerReadsBoundBytes(
    history: seq<Snapshot>, operations: seq<Operation>, answers: seq<Option<string>>, n: nat)
    returns (k: nat, binds: seq<nat>)
    requires IsRun(history, operations, answers) && n <= |operations|
    requires history[0].input.None? && forall r | r in history[0].records :: r.sealedArtifact.None?
    requires history[n].input.Some?
    ensures k < n && operations[k].BuildInstallInput? && history[n].input.value in history[n].files
    ensures |binds| == |history[n].records| && BoundAt(history, operations, n, binds)
    ensures forall j | 0 <= j < |operations[k].indices| :: operations[k].indices[j] < |binds|
    ensures history[n].files[history[n].input.value]
         == File(OriginalBytes(history, binds, operations[k].indices), true, true)
  {
    k := InputIsConcatenation(history, operations, answers, n);
    binds := BindOfEach(history, operations, answers, n, |history[n].records|);
    SealedAreOriginals(history, operations, n, binds, operations[k].indices);
  }

  /** Once a set is no longer active it hands out no path, whatever is done to it. */
  lemma {:induction false} NoPathAfterwards(
    history: seq<Snapshot>, operations: seq<Operation>, answers: seq<Option<string>>, k: nat, j: nat)
    requires IsRun(history, operations, answers) && k <= j < |operations|
    requires !history[k].state.Active?
    ensures !history[j].state.Active? && answers[j].None?
  {
    if k < j {
      var i := j - 1;
      NoPathAfterwards(history, operations, answers, k, i);
      assert Step(history[i], operations[i], answers[i], history[i + 1]);
    }
    assert Step(history[j], operations[j], answers[j], history[j + 1]);
  }

  /** While a set is active its records are the validated ones, seals aside. */
  lemma {:induction false} RecordsKeepTheirPlaces(
    history: seq<Snapshot>, operations: seq<Operation>, answers: seq<Option<string>>, n: nat)
    requires IsRun(history, operations, answers) && n <= |operations|
    ensures history[n].state.Active? ==>
      && history[0].state.Active? && |history[n].records| == |history[0].records|
      && forall i | 0 <= i < |history[n].records| ::
           && history[n].records[i].leaf == history[0].records[i].leaf
           && history[n].records[i].artifact == history[0].records[i].artifact
           && history[n].records[i].signature == history[0].records[i].signature
  {
    if n > 0 {
      var m := n - 1;
      RecordsKeepTheirPlaces(history, operations, answers, m);
      assert Step(history[m], operations[m], answers[m], history[m + 1]);
      if history[n].state.Active? {
        forall i | 0 <= i < |history[n].records|
          ensures OnlySeals(history[m].records[i], history[n].records[i])
        {
          assert RecordStep(
              history[m].records[i], history[m].files, operations[m], history[n].records[i], history[n].files);
        }
      }
    }
  }

  /** A path handed out is one the set was validated with. */
  lemma PathsAreValidated(
    history: seq<Snapshot>, operations: seq<Operation>, answers: seq<Option<string>>, j: nat)
    requires IsRun(history, operations, answers) && j < |operations| && answers[j].Some?
    ensures operations[j].AskPath? && operations[j].index < |history[0].records|
    ensures answers[j].value == history[0].records[operations[j].index].leaf
  {
    assert Step(history[j], operations[j], answers[j], history[j + 1]);
    RecordsKeepTheirPlaces(history, operations, answers, j);
  }

  // ----- a run whose original is rewritten in the end -----

  function OneRecord(copy: Option<nat>): Record {
    Record("a", Some(1), false, None, copy, None)
  }

  function OneByte(b: Byte, isSealed: bool): File {
    File([b], true, isSealed)
  }

  function SmallOperations(): seq<Operation> {
    [Bind, BuildInstallInput([0]), RewriteFiles(map[1 := [9]])]
  }

  function SmallHistory(): seq<Snapshot> {
    [Snapshot([OneRecord(None)], map[1 := OneByte(7, false)], None, Active),
     Snapshot([OneRecord(Some(2))], map[1 := OneByte(7, false), 2 := OneByte(7, true)], None, Active),
     Snapshot([OneRecord(Some(2))], map[1 := OneByte(7, false), 2 := OneByte(7, true), 3 := OneByte(7, true)],
       Some(3), Active),
     Snapshot([OneRecord(Some(2))], map[1 := OneByte(9, false), 2 := OneByte(7, true), 3 := OneByte(7, true)],
       Some(3), Active)]
  }

  lemma SmallInput(s: Snapshot)
    requires s.records == [OneRecord(Some(2))] && RecordsValid(s.records, s.files)
    requires 2 in s.files && s.files[2] == OneByte(7, true)
    requires s.input == Some(3) && 3 in s.files && s.files[3] == OneByte(7, true)
    ensures BuiltFrom(s, [0])
  {
    assert [0][..0] == [];
    assert SealedBytes(s.records[0], s.files) == [7];
    assert InstallInput(s.records, s.files, [0]) == [] + [7];
  }

  /** The bind, the input and then a rewrite: the installer still reads the 7 that was
      bound, while the original holds a 9. */
  lemma SmallRun(history: seq<Snapshot>, operations: seq<Operation>, answers: seq<Option<string>>)
    requires history == SmallHistory() && operations == SmallOperations() && answers == [None, None, None]
    ensures IsRun(history, operations, answers)
    ensures history[0].input.None? && forall r | r in history[0].records :: r.sealedArtifact.None?
    ensures history[3].files[1].content == [9] && history[3].files[3] == File([7], true, true)
  {
    var copied := OneRecord(Some(2));
    forall k | 0 <= k <= 3 ensures SnapshotValid(history[k]) {
    }
    assert HoldsBytesOf(copied, history[1].files, history[0].files);
    assert RecordStep(OneRecord(None), history[0].files, Bind, copied, history[1].files);
    assert Step(history[0], operations[0], answers[0], history[1]);
    SmallInput(history[2]);
    assert RecordStep(copied, history[1].files, operations[1], copied, history[2].files);
    assert Step(history[1], operations[1], answers[1], history[2]);
    assert RecordStep(copied, history[2].files, operations[2], copied, history[3].files);
    assert Step(history[2], operations[2], answers[2], history[3]);
  }
}
