/**
 The validated artifact set: who owns which descriptor, how install content is
 sealed under a transaction budget, and how ownership ends.
 */
module ArtifactSet {
  import opened Wrappers
  import opened InstallContent
  import opened CallPlans

  /** One artifact: its retained descriptors and, once bound, the sealed copies. */
  datatype Record = Record(
    leaf: string, artifact: Option<nat>, hasSignature: bool, signature: Option<nat>,
    sealedArtifact: Option<nat>, sealedSignature: Option<nat>)

  datatype Workspace = Workspace(descriptor: Option<nat>, ownsPath: bool, cleanupOnDestruction: bool)

  datatype OwnershipState = Active | WorkspaceCleanupPending | Inactive

  datatype CleanupReport = NotOwned | NotValid | WorkspaceKept | WorkspaceGone

  // ----- who holds which descriptor -----

  datatype Part = Artifact | Signature | SealedArtifact | SealedSignature

  /** A place in a validated set that can hold one descriptor. */
  datatype Slot = OfWorkspace | OfInput | OfRecord(index: nat, part: Part)

  function PartOf(r: Record, part: Part): Option<nat> {
    match part
    case Artifact => r.artifact
    case Signature => r.signature
    case SealedArtifact => r.sealedArtifact
    case SealedSignature => r.sealedSignature
  }

  function Held(workspace: Workspace, records: seq<Record>, input: Option<nat>, slot: Slot): Option<nat> {
    match slot
    case OfWorkspace => workspace.descriptor
    case OfInput => input
    case OfRecord(i, part) => if i < |records| then PartOf(records[i], part) else None
  }

  /** `owner` names the one slot that holds each owned descriptor. */
  ghost predicate Bookkept(
    workspace: Workspace, records: seq<Record>, input: Option<nat>, owner: map<nat, Slot>)
  {
    && (forall slot :: Held(workspace, records, input, slot).Some? ==>
          var fd := Held(workspace, records, input, slot).value; fd in owner && owner[fd] == slot)
    && (forall fd | fd in owner :: Held(workspace, records, input, owner[fd]) == Some(fd))
  }

  /** The descriptors outside the owned ones, and their files, are as before. */
  ghost predicate Elsewhere(
    before: map<nat, File>, ownedBefore: set<nat>, after: map<nat, File>, ownedAfter: set<nat>)
  {
    && before.Keys - ownedBefore == after.Keys - ownedAfter
    && forall fd | fd in before && fd !in ownedBefore :: fd in after && after[fd] == before[fd]
  }

  // ----- records -----

  ghost predicate SealedWithin(files: map<nat, File>, fd: nat, limit: nat) {
    fd in files && files[fd].isSealed && files[fd].isRegular && |files[fd].content| <= limit
  }

  /** A record retains its own descriptors; archive and signature are sealed
      together or not at all. */
  ghost predicate RecordValid(r: Record, files: map<nat, File>) {
    && r.artifact.Some? && r.artifact.value in files
    && (r.signature.Some? <==> r.hasSignature)
    && (r.signature.Some? ==> r.signature.value in files)
    && (r.sealedArtifact.None? ==> r.sealedSignature.None?)
    && (r.sealedArtifact.Some? ==>
          && (r.sealedSignature.Some? <==> r.hasSignature)
          && SealedWithin(files, r.sealedArtifact.value, MAXIMUM_ARTIFACT_BYTES)
          && (r.sealedSignature.Some? ==> SealedWithin(files, r.sealedSignature.value, MAXIMUM_SIGNATURE_BYTES)))
  }

  ghost predicate RecordsValid(records: seq<Record>, files: map<nat, File>) {
    forall i | 0 <= i < |records| :: RecordValid(records[i], files)
  }

  /** The sealed copies hold the very bytes of the retained descriptors. */
  ghost predicate ContentAgrees(r: Record, files: map<nat, File>)
    requires RecordValid(r, files)
  {
    && r.sealedArtifact.Some?
    && files[r.sealedArtifact.value].content == files[r.artifact.value].content
    && (r.hasSignature ==> files[r.sealedSignature.value].content == files[r.signature.value].content)
  }

  /** What an installer receives: each chosen archive followed by its signature. */
  ghost function InstallInput(records: seq<Record>, files: map<nat, File>, indices: seq<nat>): Bytes
    requires AreIndices(indices, |records|)
    requires RecordsValid(records, files) && forall i | 0 <= i < |records| :: records[i].sealedArtifact.Some?
  {
    if indices == [] then []
    else
      var last := |indices| - 1;
      InstallInput(records, files, indices[..last]) + SealedBytes(records[indices[last]], files)
  }

  lemma InputMore(records: seq<Record>, files: map<nat, File>, indices: seq<nat>, j: nat)
    requires j < |indices| && AreIndices(indices[..j], |records|) && indices[j] < |records|
    requires RecordsValid(records, files) && forall i | 0 <= i < |records| :: records[i].sealedArtifact.Some?
    ensures RecordValid(records[indices[j]], files) && AreIndices(indices[..j + 1], |records|)
    ensures InstallInput(records, files, indices[..j + 1])
         == InstallInput(records, files, indices[..j]) + SealedBytes(records[indices[j]], files)
  {
    assert indices[..j + 1] == indices[..j] + [indices[j]];
    assert indices[..j + 1][..j] == indices[..j];
  }

  ghost function SealedBytes(r: Record, files: map<nat, File>): Bytes
    requires RecordValid(r, files) && r.sealedArtifact.Some?
  {
    files[r.sealedArtifact.value].content + (if r.hasSignature then files[r.sealedSignature.value].content else [])
  }

  /** A sealed record keeps its sealed copies; an unsealed one may gain them. */
  ghost predicate OnlySeals(before: Record, after: Record) {
    && after == before.(sealedArtifact := after.sealedArtifact, sealedSignature := after.sealedSignature)
    && (before.sealedArtifact.Some? ==> after == before)
  }

  /** A sealed copy of `source` in a new descriptor; on failure nothing stays open. */
  method SealCopy(kernel: Kernel, source: nat, maximum: nat) returns (copy: Option<nat>)
    requires source in kernel.files
    modifies kernel`files, kernel`script
    ensures copy.None? ==> kernel.files == old(kernel.files)
    ensures var file := old(kernel.files)[source];
      && (copy.Some? <==>
            file.isRegular && |file.content| <= maximum && SealPass(|file.content|, old(kernel.script)).Some?)
      && (copy.Some? ==>
            && copy.value !in old(kernel.files)
            && kernel.files == old(kernel.files)[copy.value := File(file.content, true, true)]
            && kernel.script == SealPass(|file.content|, old(kernel.script)).value)
  {
    SealInTurn(|kernel.files[source].content|, kernel.script);
    copy := kernel.CreateMemory();
    if copy.None? {
      return;
    }
    var copied := CopyInstallBytes(kernel, source, copy.value, maximum);
    var ok := false;
    if copied.Some? {
      assert [] + kernel.files[source].content == kernel.files[source].content;
      ok := kernel.Seal(copy.value);
    }
    if !ok {
      kernel.Close(copy.value);
      return None;
    }
  }

  ghost function WithSeals(owner: map<nat, Slot>, i: nat, archive: nat, signature: Option<nat>): map<nat, Slot> {
    var more := owner[archive := OfRecord(i, SealedArtifact)];
    if signature.Some? then more[signature.value := OfRecord(i, SealedSignature)] else more
  }

  lemma SealsBookkept(
    workspace: Workspace, records: seq<Record>, input: Option<nat>, owner: map<nat, Slot>,
    i: nat, archive: nat, signature: Option<nat>)
    requires Bookkept(workspace, records, input, owner) && i < |records|
    requires records[i].sealedArtifact.None? && records[i].sealedSignature.None?
    requires archive !in owner && signature != Some(archive) && (signature.Some? ==> signature.value !in owner)
    ensures Bookkept(
      workspace, records[i := records[i].(sealedArtifact := Some(archive), sealedSignature := signature)], input,
      WithSeals(owner, i, archive, signature))
  {
    var one := records[i := records[i].(sealedArtifact := Some(archive))];
    SlotFilled(workspace, records, one, input, owner, OfRecord(i, SealedArtifact), archive);
    var both := records[i := records[i].(sealedArtifact := Some(archive), sealedSignature := signature)];
    if signature.Some? {
      SlotFilled(
        workspace, one, both, input, owner[archive := OfRecord(i, SealedArtifact)], OfRecord(i, SealedSignature),
        signature.value);
    } else {
      assert both == one;
    }
  }

  /** One more slot comes to hold a descriptor. */
  lemma SlotFilled(
    workspace: Workspace, before: seq<Record>, after: seq<Record>, input: Option<nat>, owner: map<nat, Slot>,
    slot: Slot, fd: nat)
    requires Bookkept(workspace, before, input, owner) && fd !in owner
    requires Held(workspace, before, input, slot).None?
    requires forall s: Slot ::
      Held(workspace, after, input, s) == if s == slot then Some(fd) else Held(workspace, before, input, s)
    ensures Bookkept(workspace, after, input, owner[fd := slot])
  {
  }

  /** The bytes of all sealed copies together. */
  ghost function SealedTotal(records: seq<Record>, files: map<nat, File>): nat
    requires RecordsValid(records, files)
  {
    if records == [] then 0
    else
      var last := |records| - 1;
      SealedTotal(records[..last], files)
      + (if records[last].sealedArtifact.Some? then |SealedBytes(records[last], files)| else 0)
  }

  function SizeOf(files: map<nat, File>, fd: Option<nat>): nat {
    if fd.Some? && fd.value in files then |files[fd.value].content| else 0
  }

  ghost function LiveSize(r: Record, files: map<nat, File>): nat {
    SizeOf(files, r.artifact) + SizeOf(files, r.signature)
  }

  /** The bytes of all retained descriptors together. */
  ghost function LiveTotal(records: seq<Record>, files: map<nat, File>): nat {
    if records == [] then 0
    else
      var last := |records| - 1;
      LiveTotal(records[..last], files) + LiveSize(records[last], files)
  }

  lemma {:induction false} LiveTotalGrows(records: seq<Record>, files: map<nat, File>, i: nat)
    requires i <= |records|
    ensures LiveTotal(records[..i], files) <= LiveTotal(records, files)
    decreases |records|
  {
    var last := |records| - 1;
    if i < |records| {
      assert records[..last][..i] == records[..i];
      LiveTotalGrows(records[..last], files, i);
    } else {
      assert records[..i] == records;
    }
  }

  // ----- how large the content is -----

  ghost function LiveExtent(r: Record, files: map<nat, File>): Extent {
    Extent(SizeOf(files, r.artifact), if r.hasSignature then Some(SizeOf(files, r.signature)) else None)
  }

  ghost function LiveExtents(records: seq<Record>, files: map<nat, File>): (r: seq<Extent>)
    ensures |r| == |records|
  {
    seq(|records|, i requires 0 <= i < |records| => LiveExtent(records[i], files))
  }

  /** The extents of the records that have no copies yet. */
  ghost function UnsealedExtents(records: seq<Record>, files: map<nat, File>): seq<Extent> {
    if records == [] then []
    else
      var last := |records| - 1;
      UnsealedExtents(records[..last], files)
      + (if records[last].sealedArtifact.None? then [LiveExtent(records[last], files)] else [])
  }

  lemma {:induction false} UnsealedIsPrefix(records: seq<Record>, files: map<nat, File>, i: nat)
    requires i <= |records|
    ensures UnsealedExtents(records[..i], files) <= UnsealedExtents(records, files)
    decreases |records|
  {
    var last := |records| - 1;
    if i < |records| {
      assert records[..last][..i] == records[..i];
      UnsealedIsPrefix(records[..last], files, i);
    } else {
      assert records[..i] == records;
    }
  }

  /** The calls of a bind: the copies that are missing, then the comparison. */
  ghost function BindPlan(records: seq<Record>, files: map<nat, File>): seq<Step> {
    Plan(Sealing, UnsealedExtents(records, files)) + Plan(Comparing, LiveExtents(records, files))
  }

  lemma LiveExtentsKept(records: seq<Record>, before: map<nat, File>, after: map<nat, File>)
    requires RecordsValid(records, before) && forall i | 0 <= i < |records| :: SameFor(records[i], before, after)
    ensures LiveExtents(records, after) == LiveExtents(records, before)
  {
    forall i | 0 <= i < |records| ensures LiveExtent(records[i], after) == LiveExtent(records[i], before) {
      assert RecordValid(records[i], before) && SameFor(records[i], before, after);
      assert PartOf(records[i], Artifact) == records[i].artifact;
      assert PartOf(records[i], Signature) == records[i].signature;
    }
  }

  lemma BoundExtents(start: seq<Record>, originals: map<nat, File>, records: seq<Record>, files: map<nat, File>)
    requires RecordsValid(start, originals) && RecordsValid(records, files) && Bound(start, originals, records, files)
    ensures LiveExtents(records, files) == LiveExtents(start, originals)
  {
    forall i | 0 <= i < |records| ensures LiveExtent(records[i], files) == LiveExtent(start[i], originals) {
      assert RecordValid(start[i], originals) && OnlySeals(start[i], records[i]);
    }
  }

  // ----- when content can be bound -----

  ghost predicate FitsIn(files: map<nat, File>, fd: nat, limit: nat) {
    fd in files && files[fd].isRegular && |files[fd].content| <= limit
  }

  /** The originals are regular files within the limits of one artifact. */
  ghost predicate Sealable(r: Record, files: map<nat, File>) {
    && r.artifact.Some? && FitsIn(files, r.artifact.value, MAXIMUM_ARTIFACT_BYTES)
    && (r.signature.Some? ==> FitsIn(files, r.signature.value, MAXIMUM_SIGNATURE_BYTES))
  }

  ghost predicate MayBind(r: Record, files: map<nat, File>) {
    r.sealedArtifact.Some? || Sealable(r, files)
  }

  /** What a record takes from the budget: its earlier copies, or its originals. */
  ghost function BindSize(r: Record, files: map<nat, File>): nat
    requires RecordValid(r, files)
  {
    if r.sealedArtifact.Some? then |SealedBytes(r, files)| else LiveSize(r, files)
  }

  ghost function BindTotal(records: seq<Record>, files: map<nat, File>): nat
    requires RecordsValid(records, files)
  {
    if records == [] then 0
    else
      var last := |records| - 1;
      assert RecordValid(records[last], files);
      BindTotal(records[..last], files) + BindSize(records[last], files)
  }

  lemma {:induction false} BindTotalGrows(records: seq<Record>, files: map<nat, File>, i: nat)
    requires i <= |records| && RecordsValid(records, files)
    ensures BindTotal(records[..i], files) <= BindTotal(records, files)
    decreases |records|
  {
    var last := |records| - 1;
    if i < |records| {
      assert records[..last][..i] == records[..i];
      BindTotalGrows(records[..last], files, i);
    } else {
      assert records[..i] == records;
    }
  }

  /** Copies that still agree take from the budget what their originals would. */
  lemma {:induction false} AgreedTakesLive(records: seq<Record>, files: map<nat, File>)
    requires RecordsValid(records, files)
    requires forall i | 0 <= i < |records| && records[i].sealedArtifact.Some? :: ContentAgrees(records[i], files)
    ensures BindTotal(records, files) == LiveTotal(records, files)
  {
    if records != [] {
      var last := |records| - 1;
      AgreedTakesLive(records[..last], files);
      assert RecordValid(records[last], files);
    }
  }

  /** Everything a bind asks of the content: earlier copies still agree, the other
      originals are small regular files, and all originals fit the transport. */
  ghost predicate CanBind(records: seq<Record>, files: map<nat, File>)
    requires RecordsValid(records, files)
  {
    && LiveTotal(records, files) <= MAXIMUM_TRANSACTION_BYTES
    && forall i | 0 <= i < |records| ::
         if records[i].sealedArtifact.Some? then ContentAgrees(records[i], files) else Sealable(records[i], files)
  }

  // ----- rechecking a whole set -----

  /** The `k`-th coming validity check passes. */
  ghost predicate Passes(verdicts: seq<bool>, k: nat) {
    k < |verdicts| ==> verdicts[k]
  }

  ghost predicate PassesAll(verdicts: seq<bool>, n: nat) {
    forall k: nat | k < n :: Passes(verdicts, k)
  }

  lemma PassesInTurn(verdicts: seq<bool>, n: nat, m: nat)
    ensures PassesAll(verdicts, n + m) <==> PassesAll(verdicts, n) && PassesAll(After(verdicts, n), m)
    ensures After(After(verdicts, n), m) == After(verdicts, n + m)
  {
    forall k: nat | k < m ensures Passes(After(verdicts, n), k) <==> Passes(verdicts, n + k) {
    }
    if PassesAll(verdicts, n) && PassesAll(After(verdicts, n), m) {
      forall k: nat | k < n + m ensures Passes(verdicts, k) {
        assert k >= n ==> Passes(After(verdicts, n), k - n);
      }
    }
  }

  ghost function After(verdicts: seq<bool>, n: nat): seq<bool> {
    if n <= |verdicts| then verdicts[n..] else []
  }

  /** The first `i` records have been compared, and `left` is what that left. */
  ghost predicate ComparedUpTo(
    records: seq<Record>, files: map<nat, File>, script: seq<Outcome>, i: nat, left: seq<Outcome>)
    requires RecordsValid(records, files) && i <= |records|
  {
    && (forall j | 0 <= j < i :: ContentAgrees(records[j], files))
    && PassedUpTo(Comparing, LiveExtents(records, files), script, i, left)
  }

  lemma ComparedMore(records: seq<Record>, files: map<nat, File>, script: seq<Outcome>, i: nat, left: seq<Outcome>)
    requires RecordsValid(records, files) && i < |records| && ComparedUpTo(records, files, script, i, left)
    ensures RecordValid(records[i], files)
    ensures var pass := PassFor(Comparing, LiveExtent(records[i], files), left);
      && (ContentAgrees(records[i], files) && pass.Some? ==>
            ComparedUpTo(records, files, script, i + 1, pass.value))
      && (pass.None? ==> PassAll(Comparing, LiveExtents(records, files), script).None?)
  {
    assert RecordValid(records[i], files);
    PassMore(Comparing, LiveExtents(records, files), script, i, left);
  }

  ghost predicate Unchanged(before: map<nat, File>, after: map<nat, File>) {
    forall fd | fd in before :: fd in after && after[fd] == before[fd]
  }

  lemma RecordsKept(records: seq<Record>, before: map<nat, File>, after: map<nat, File>)
    requires RecordsValid(records, before) && Unchanged(before, after)
    ensures RecordsValid(records, after)
  {
    forall i | 0 <= i < |records| ensures RecordValid(records[i], after) {
      assert RecordValid(records[i], before);
    }
  }

  /** What binding may do to the records: earlier seals and all files stay, and a
      new seal holds the bytes of its original. */
  ghost predicate Bound(
    recordsBefore: seq<Record>, filesBefore: map<nat, File>, records: seq<Record>, files: map<nat, File>)
    requires RecordsValid(records, files)
  {
    && Unchanged(filesBefore, files) && |records| == |recordsBefore|
    && forall i | 0 <= i < |records| ::
         && OnlySeals(recordsBefore[i], records[i])
         && (recordsBefore[i].sealedArtifact.None? && records[i].sealedArtifact.Some? ==>
               ContentAgrees(records[i], files))
  }

  lemma NothingBound(records: seq<Record>, files: map<nat, File>)
    requires RecordsValid(records, files)
    ensures Bound(records, files, records, files)
  {
  }

  /** The first `i` records have been bound, the others are as they were. */
  ghost predicate BoundUpTo(
    start: seq<Record>, originals: map<nat, File>, records: seq<Record>, files: map<nat, File>, i: nat)
    requires RecordsValid(start, originals) && RecordsValid(records, files)
  {
    && Bound(start, originals, records, files)
    && (forall j | i <= j < |records| :: records[j] == start[j])
    && (forall j | 0 <= j < i && j < |records| :: records[j].sealedArtifact.Some? && MayBind(start[j], originals))
  }

  lemma BoundMore(
    start: seq<Record>, originals: map<nat, File>, before: seq<Record>, filesBefore: map<nat, File>,
    records: seq<Record>, files: map<nat, File>, i: nat)
    requires RecordsValid(start, originals) && RecordsValid(before, filesBefore) && RecordsValid(records, files)
    requires BoundUpTo(start, originals, before, filesBefore, i) && Unchanged(filesBefore, files)
    requires i < |records| == |before| && records == before[i := records[i]]
    requires OnlySeals(before[i], records[i])
    requires before[i].sealedArtifact.None? && records[i].sealedArtifact.Some? ==> ContentAgrees(records[i], files)
    ensures Bound(start, originals, records, files)
    ensures records[i].sealedArtifact.Some? && MayBind(start[i], filesBefore) ==>
      BoundUpTo(start, originals, records, files, i + 1)
  {
    AgreementKept(before, filesBefore, files);
    assert RecordValid(start[i], originals);
    SameBindSize(start[i], originals, filesBefore);
  }

  /** All that a bind has to hold fits the budget, each part its own limit. */
  ghost predicate AllFit(records: seq<Record>, files: map<nat, File>)
    requires RecordsValid(records, files)
  {
    && (forall i | 0 <= i < |records| :: MayBind(records[i], files))
    && BindTotal(records, files) <= MAXIMUM_TRANSACTION_BYTES
  }

  lemma OneMoreFits(start: seq<Record>, originals: map<nat, File>, files: map<nat, File>, i: nat, remaining: nat)
    requires i < |start| && RecordsValid(start, originals) && Unchanged(originals, files)
    requires remaining + BindTotal(start[..i], originals) == MAXIMUM_TRANSACTION_BYTES
    ensures RecordValid(start[i], files)
    ensures AllFit(start, originals) ==> MayBind(start[i], files) && BindSize(start[i], files) <= remaining
    ensures BindTotal(start[..i + 1], originals) == BindTotal(start[..i], originals) + BindSize(start[i], files)
  {
    assert RecordValid(start[i], originals);
    SameBindSize(start[i], originals, files);
    BindTotalGrows(start, originals, i + 1);
    assert start[..i + 1][..i] == start[..i];
  }

  lemma {:induction false} SealedTotalIsBindTotal(
    start: seq<Record>, originals: map<nat, File>, records: seq<Record>, files: map<nat, File>)
    requires RecordsValid(start, originals) && RecordsValid(records, files)
    requires BoundUpTo(start, originals, records, files, |start|)
    ensures SealedTotal(records, files) == BindTotal(start, originals)
  {
    if start != [] {
      var last := |start| - 1;
      assert RecordValid(start[last], originals) && RecordValid(records[last], files);
      SealedTotalIsBindTotal(start[..last], originals, records[..last], files);
      SealTakesLive(start[last], originals, records[last], files);
    }
  }

  ghost predicate AllAgree(records: seq<Record>, files: map<nat, File>)
    requires RecordsValid(records, files)
  {
    forall i | 0 <= i < |records| :: ContentAgrees(records[i], files)
  }

  lemma CanBindFits(start: seq<Record>, originals: map<nat, File>)
    requires RecordsValid(start, originals)
    ensures CanBind(start, originals) ==>
      AllFit(start, originals) && LiveTotal(start, originals) <= MAXIMUM_TRANSACTION_BYTES
  {
    if CanBind(start, originals) {
      AgreedTakesLive(start, originals);
    }
  }

  lemma BindInTurn(records: seq<Record>, files: map<nat, File>, script: seq<Outcome>)
    ensures Pass(BindPlan(records, files), script) ==
      var copied := PassAll(Sealing, UnsealedExtents(records, files), script);
      if copied.None? then None else PassAll(Comparing, LiveExtents(records, files), copied.value)
  {
    PassInTurn(Plan(Sealing, UnsealedExtents(records, files)), Plan(Comparing, LiveExtents(records, files)), script);
  }

  /** Once everything is sealed, the copies agree exactly when the earlier ones did. */
  lemma BoundAgree(start: seq<Record>, originals: map<nat, File>, records: seq<Record>, files: map<nat, File>)
    requires RecordsValid(start, originals) && RecordsValid(records, files)
    requires Bound(start, originals, records, files) && AllFit(start, originals)
    requires forall i | 0 <= i < |records| :: records[i].sealedArtifact.Some?
    requires LiveTotal(start, originals) <= MAXIMUM_TRANSACTION_BYTES
    ensures AllAgree(records, files) <==> CanBind(start, originals)
  {
    forall i | 0 <= i < |records|
      ensures ContentAgrees(records[i], files) <==>
        if start[i].sealedArtifact.Some? then ContentAgrees(start[i], originals) else Sealable(start[i], originals)
    {
      assert RecordValid(start[i], originals) && OnlySeals(start[i], records[i]);
      assert MayBind(start[i], originals);
    }
  }

  lemma AgreementKept(records: seq<Record>, before: map<nat, File>, after: map<nat, File>)
    requires RecordsValid(records, before) && Unchanged(before, after)
    ensures RecordsValid(records, after)
    ensures forall i | 0 <= i < |records| :: ContentAgrees(records[i], before) <==> ContentAgrees(records[i], after)
  {
    RecordsKept(records, before, after);
    forall i | 0 <= i < |records| ensures ContentAgrees(records[i], before) <==> ContentAgrees(records[i], after) {
      assert RecordValid(records[i], before);
    }
  }

  /** A record with copies asks for no call. */
  ghost function BindPass(r: Record, files: map<nat, File>, script: seq<Outcome>): Option<seq<Outcome>> {
    if r.sealedArtifact.Some? then Some(script) else PassFor(Sealing, LiveExtent(r, files), script)
  }

  /** The first `i` records have been bound and `left` is what that left. */
  ghost predicate BindPassedUpTo(
    records: seq<Record>, files: map<nat, File>, script: seq<Outcome>, i: nat, left: seq<Outcome>)
  {
    i <= |records| && PassAll(Sealing, UnsealedExtents(records[..i], files), script) == Some(left)
  }

  lemma BindPassMore(
    records: seq<Record>, originals: map<nat, File>, files: map<nat, File>, script: seq<Outcome>, i: nat,
    left: seq<Outcome>)
    requires i < |records| && RecordsValid(records, originals) && Unchanged(originals, files)
    requires BindPassedUpTo(records, originals, script, i, left)
    ensures var pass := BindPass(records[i], files, left);
      && (pass.Some? ==> BindPassedUpTo(records, originals, script, i + 1, pass.value))
      && (pass.None? ==> PassAll(Sealing, UnsealedExtents(records, originals), script).None?)
  {
    assert RecordValid(records[i], originals);
    assert LiveExtent(records[i], files) == LiveExtent(records[i], originals);
    UnsealedNext(records, originals, i);
    if records[i].sealedArtifact.None? {
      UnsealedIsPrefix(records, originals, i + 1);
      PassOneMore(
        Sealing, UnsealedExtents(records[..i], originals), LiveExtent(records[i], originals),
        UnsealedExtents(records, originals), script, left);
    }
  }

  lemma UnsealedNext(records: seq<Record>, files: map<nat, File>, i: nat)
    requires i < |records|
    ensures UnsealedExtents(records[..i + 1], files) ==
      if records[i].sealedArtifact.None? then UnsealedExtents(records[..i], files) + [LiveExtent(records[i], files)]
      else UnsealedExtents(records[..i], files)
  {
    assert records[..i + 1][..i] == records[..i];
  }

  lemma SameBindSize(r: Record, before: map<nat, File>, after: map<nat, File>)
    requires RecordValid(r, before) && Unchanged(before, after)
    ensures RecordValid(r, after) && BindSize(r, after) == BindSize(r, before)
    ensures MayBind(r, after) == MayBind(r, before)
  {
  }

  /** A record's copies, old or new, take what the record was said to take. */
  lemma SealTakesLive(original: Record, before: map<nat, File>, r: Record, after: map<nat, File>)
    requires RecordValid(original, before) && RecordValid(r, after) && Unchanged(before, after)
    requires OnlySeals(original, r) && r.sealedArtifact.Some?
    requires original.sealedArtifact.None? ==> ContentAgrees(r, after)
    ensures |SealedBytes(r, after)| == BindSize(original, before)
  {
  }

  /** Seals the archive and the signature of one record within the remaining
      budget; the subtraction from the budget never goes below zero. */
  method SealContent(kernel: Kernel, record: Record, remaining: nat) returns (done: Option<Record>, left: nat)
    requires RecordValid(record, kernel.files) && record.sealedArtifact.None?
    modifies kernel`files, kernel`script
    ensures Unchanged(old(kernel.files), kernel.files)
    ensures done.None? ==> kernel.files == old(kernel.files)
    ensures done.Some? ==>
      && OnlySeals(record, done.value) && done.value.sealedArtifact.Some?
      && NewDescriptors(done.value) !! old(kernel.files).Keys
      && (done.value.sealedSignature != done.value.sealedArtifact)
      && kernel.files.Keys == old(kernel.files).Keys + NewDescriptors(done.value)
      && RecordValid(done.value, kernel.files) && ContentAgrees(done.value, kernel.files)
      && left + |SealedBytes(done.value, kernel.files)| == remaining
    ensures var pass := PassFor(Sealing, LiveExtent(record, old(kernel.files)), old(kernel.script));
      && (done.Some? <==>
            && Sealable(record, old(kernel.files)) && LiveSize(record, old(kernel.files)) <= remaining
            && pass.Some?)
      && (done.Some? ==> kernel.script == pass.value)
  {
    StepsInTurn(Sealing, LiveExtent(record, kernel.files), kernel.script);
    left := remaining;
    var archive := SealCopy(kernel, record.artifact.value, Min(left, MAXIMUM_ARTIFACT_BYTES));
    if archive.None? {
      return None, remaining;
    }
    left := left - |kernel.files[archive.value].content|;
    var signature := None;
    if record.hasSignature {
      signature := SealCopy(kernel, record.signature.value, Min(left, MAXIMUM_SIGNATURE_BYTES));
      if signature.None? {
        kernel.Close(archive.value);
        assert kernel.files == old(kernel.files);
        return None, remaining;
      }
      left := left - |kernel.files[signature.value].content|;
    }
    done := Some(record.(sealedArtifact := archive, sealedSignature := signature));
  }

  ghost function NewDescriptors(r: Record): set<nat>
    requires r.sealedArtifact.Some?
  {
    {r.sealedArtifact.value} + if r.sealedSignature.Some? then {r.sealedSignature.value} else {}
  }

  ghost predicate UnchangedExcept(before: map<nat, File>, after: map<nat, File>, closed: Option<nat>) {
    forall fd | fd in before && Some(fd) != closed :: fd in after && after[fd] == before[fd]
  }

  /** Every descriptor of the record is open before and after, on the same file. */
  ghost predicate SameFor(r: Record, before: map<nat, File>, after: map<nat, File>) {
    forall part: Part | PartOf(r, part).Some? ::
      var fd := PartOf(r, part).value; fd in before && fd in after && after[fd] == before[fd]
  }

  ghost predicate SameFile(fd: Option<nat>, before: map<nat, File>, after: map<nat, File>) {
    fd.Some? ==> fd.value in before && fd.value in after && after[fd.value] == before[fd.value]
  }

  /** The sealed copies are open before and after, on the same files. */
  ghost predicate CopiesKept(r: Record, before: map<nat, File>, after: map<nat, File>) {
    SameFile(r.sealedArtifact, before, after) && SameFile(r.sealedSignature, before, after)
  }

  lemma KeptOne(r: Record, before: map<nat, File>, after: map<nat, File>)
    requires RecordValid(r, before) && SameFor(r, before, after)
    ensures RecordValid(r, after) && CopiesKept(r, before, after)
    ensures ContentAgrees(r, before) <==> ContentAgrees(r, after)
  {
    assert PartOf(r, Artifact) == r.artifact && PartOf(r, Signature) == r.signature;
    assert PartOf(r, SealedArtifact) == r.sealedArtifact && PartOf(r, SealedSignature) == r.sealedSignature;
  }

  lemma KeptFor(records: seq<Record>, before: map<nat, File>, after: map<nat, File>)
    requires RecordsValid(records, before) && forall i | 0 <= i < |records| :: SameFor(records[i], before, after)
    ensures RecordsValid(records, after)
    ensures forall i | 0 <= i < |records| :: ContentAgrees(records[i], before) <==> ContentAgrees(records[i], after)
    ensures forall i | 0 <= i < |records| :: CopiesKept(records[i], before, after)
  {
    forall i | 0 <= i < |records|
      ensures RecordValid(records[i], after) && CopiesKept(records[i], before, after)
      ensures ContentAgrees(records[i], before) <==> ContentAgrees(records[i], after)
    {
      KeptOne(records[i], before, after);
    }
  }

  /** Every record is sealed and the same before and after. */
  ghost predicate CopiesStay(records: seq<Record>, before: map<nat, File>, after: map<nat, File>) {
    && RecordsValid(records, before) && RecordsValid(records, after)
    && forall i | 0 <= i < |records| :: CopiesKept(records[i], before, after) && records[i].sealedArtifact.Some?
  }

  ghost predicate SameInput(records: seq<Record>, before: map<nat, File>, after: map<nat, File>, indices: seq<nat>)
    requires CopiesStay(records, before, after)
    requires AreIndices(indices, |records|)
  {
    InstallInput(records, before, indices) == InstallInput(records, after, indices)
  }

  lemma {:induction false} InputKept(
    records: seq<Record>, before: map<nat, File>, after: map<nat, File>, indices: seq<nat>)
    requires CopiesStay(records, before, after)
    requires AreIndices(indices, |records|)
    ensures SameInput(records, before, after, indices)
  {
    if indices != [] {
      InputKept(records, before, after, indices[..|indices| - 1]);
      InputKeptMore(records, before, after, indices);
    }
  }

  lemma InputKeptMore(records: seq<Record>, before: map<nat, File>, after: map<nat, File>, indices: seq<nat>)
    requires CopiesStay(records, before, after) && indices != []
    requires AreIndices(indices, |records|)
    requires SameInput(records, before, after, indices[..|indices| - 1])
    ensures SameInput(records, before, after, indices)
  {
    BytesKept(records[indices[|indices| - 1]], before, after);
  }

  lemma BytesKept(r: Record, before: map<nat, File>, after: map<nat, File>)
    requires RecordValid(r, before) && RecordValid(r, after) && r.sealedArtifact.Some? && CopiesKept(r, before, after)
    ensures SealedBytes(r, before) == SealedBytes(r, after)
  {
  }

  lemma UnchangedForRecords(records: seq<Record>, before: map<nat, File>, after: map<nat, File>)
    requires RecordsValid(records, before) && Unchanged(before, after)
    ensures forall i | 0 <= i < |records| :: SameFor(records[i], before, after)
  {
    forall i, part: Part | 0 <= i < |records| && PartOf(records[i], part).Some?
      ensures PartOf(records[i], part).value in before
    {
      assert RecordValid(records[i], before);
    }
  }

  ghost function WithInput(owner: map<nat, Slot>, previous: Option<nat>, input: nat): map<nat, Slot> {
    (if previous.Some? then owner - {previous.value} else owner)[input := OfInput]
  }

  lemma InputBookkept(
    workspace: Workspace, records: seq<Record>, previous: Option<nat>, owner: map<nat, Slot>, input: nat)
    requires Bookkept(workspace, records, previous, owner) && input !in owner
    ensures Bookkept(workspace, records, Some(input), WithInput(owner, previous, input))
  {
    assert previous.Some? ==> Held(workspace, records, previous, OfInput) == previous;
    forall slot ensures Held(workspace, records, Some(input), slot) ==
      if slot == OfInput then Some(input) else Held(workspace, records, previous, slot)
    {
    }
  }

  lemma NoInputBookkept(workspace: Workspace, input: Option<nat>, owner: map<nat, Slot>)
    returns (rest: map<nat, Slot>)
    requires Bookkept(workspace, [], input, owner)
    ensures Bookkept(workspace, [], None, rest)
    ensures rest == if input.Some? then owner - {input.value} else owner
    ensures input.Some? ==> input.value in owner
  {
    assert Held(workspace, [], input, OfInput) == input;
    rest := if input.Some? then owner - {input.value} else owner;
    forall slot ensures Held(workspace, [], None, slot) ==
      if slot == OfInput then None else Held(workspace, [], input, slot)
    {
    }
  }

  lemma NoWorkspaceBookkept(workspace: Workspace, records: seq<Record>, input: Option<nat>, owner: map<nat, Slot>)
    returns (rest: map<nat, Slot>)
    requires Bookkept(workspace, records, input, owner)
    ensures Bookkept(workspace.(descriptor := None, ownsPath := false), records, input, rest)
    ensures rest == if workspace.descriptor.Some? then owner - {workspace.descriptor.value} else owner
    ensures workspace.descriptor.Some? ==> workspace.descriptor.value in owner && workspace.descriptor != input
  {
    assert Held(workspace, records, input, OfWorkspace) == workspace.descriptor;
    assert Held(workspace, records, input, OfInput) == input;
    rest := if workspace.descriptor.Some? then owner - {workspace.descriptor.value} else owner;
    forall slot ensures Held(workspace.(descriptor := None, ownsPath := false), records, input, slot) ==
      if slot == OfWorkspace then None else Held(workspace, records, input, slot)
    {
    }
  }

  /** Closing the previous input leaves every record's descriptors alone. */
  lemma InputIsApart(
    workspace: Workspace, records: seq<Record>, previous: Option<nat>, owner: map<nat, Slot>,
    before: map<nat, File>, after: map<nat, File>)
    requires Bookkept(workspace, records, previous, owner) && owner.Keys <= before.Keys
    requires UnchangedExcept(before, after, previous)
    ensures forall i | 0 <= i < |records| :: SameFor(records[i], before, after)
  {
    forall i, part: Part | 0 <= i < |records| && PartOf(records[i], part).Some?
      ensures PartOf(records[i], part).value in owner && PartOf(records[i], part) != previous
    {
      assert Held(workspace, records, previous, OfRecord(i, part)).Some?;
      assert previous.Some? ==> Held(workspace, records, previous, OfInput).Some?;
    }
  }

  // ----- giving descriptors back -----

  ghost function RecordKeys(r: Record): set<nat> {
    (if r.artifact.Some? then {r.artifact.value} else {})
    + (if r.signature.Some? then {r.signature.value} else {})
    + (if r.sealedArtifact.Some? then {r.sealedArtifact.value} else {})
    + (if r.sealedSignature.Some? then {r.sealedSignature.value} else {})
  }

  lemma LastPartsOwned(workspace: Workspace, records: seq<Record>, input: Option<nat>, owner: map<nat, Slot>)
    requires records != [] && Bookkept(workspace, records, input, owner)
    ensures var last := |records| - 1;
      forall part: Part | PartOf(records[last], part).Some? ::
        var fd := PartOf(records[last], part).value;
        fd in owner && owner[fd] == OfRecord(last, part)
  {
    var last := |records| - 1;
    forall part: Part | PartOf(records[last], part).Some?
      ensures PartOf(records[last], part).value in owner
        && owner[PartOf(records[last], part).value] == OfRecord(last, part)
    {
      assert Held(workspace, records, input, OfRecord(last, part)).Some?;
    }
  }

  lemma KeysAreParts(r: Record, fd: nat)
    ensures fd in RecordKeys(r) <==> exists part: Part :: PartOf(r, part) == Some(fd)
  {
    assert PartOf(r, Artifact) == r.artifact && PartOf(r, Signature) == r.signature;
    assert PartOf(r, SealedArtifact) == r.sealedArtifact && PartOf(r, SealedSignature) == r.sealedSignature;
  }

  lemma KeysOfLast(workspace: Workspace, records: seq<Record>, input: Option<nat>, owner: map<nat, Slot>, fd: nat)
    requires records != [] && Bookkept(workspace, records, input, owner)
    ensures fd in RecordKeys(records[|records| - 1]) <==>
      fd in owner && owner[fd].OfRecord? && owner[fd].index == |records| - 1
  {
    LastPartsOwned(workspace, records, input, owner);
    KeysAreParts(records[|records| - 1], fd);
    if fd in owner {
      assert Held(workspace, records, input, owner[fd]) == Some(fd);
    }
  }

  lemma LastRecordApart(workspace: Workspace, records: seq<Record>, input: Option<nat>, owner: map<nat, Slot>)
    requires records != [] && Bookkept(workspace, records, input, owner)
    ensures var r := records[|records| - 1];
      && RecordKeys(r) <= owner.Keys
      && (forall a: Part, b: Part | a != b && PartOf(r, a).Some? :: PartOf(r, a) != PartOf(r, b))
      && Bookkept(workspace, records[..|records| - 1], input, owner - RecordKeys(r))
  {
    LastPartsOwned(workspace, records, input, owner);
    forall fd ensures fd in RecordKeys(records[|records| - 1]) <==>
      fd in owner && owner[fd].OfRecord? && owner[fd].index == |records| - 1
    {
      KeysOfLast(workspace, records, input, owner, fd);
    }
    WithoutLastBookkept(workspace, records, input, owner, RecordKeys(records[|records| - 1]));
  }

  lemma WithoutLastBookkept(
    workspace: Workspace, records: seq<Record>, input: Option<nat>, owner: map<nat, Slot>, keys: set<nat>)
    requires records != [] && Bookkept(workspace, records, input, owner)
    requires forall fd :: fd in keys <==> fd in owner && owner[fd].OfRecord? && owner[fd].index == |records| - 1
    ensures Bookkept(workspace, records[..|records| - 1], input, owner - keys)
  {
    var fewer := records[..|records| - 1];
    forall slot | Held(workspace, fewer, input, slot).Some?
      ensures Held(workspace, fewer, input, slot) == Held(workspace, records, input, slot)
      ensures slot.OfRecord? ==> slot.index != |records| - 1
    {
    }
    forall fd | fd in owner && fd !in keys ensures Held(workspace, fewer, input, owner[fd]) == Some(fd) {
      assert Held(workspace, records, input, owner[fd]) == Some(fd);
    }
  }

  /** Closes the descriptors of one record, each exactly once. */
  method CloseRecord(kernel: Kernel, r: Record)
    requires RecordKeys(r) <= kernel.files.Keys
    requires forall a: Part, b: Part | a != b && PartOf(r, a).Some? :: PartOf(r, a) != PartOf(r, b)
    modifies kernel`files
    ensures kernel.files == old(kernel.files) - RecordKeys(r)
  {
    assert PartOf(r, Artifact) == r.artifact && PartOf(r, Signature) == r.signature;
    assert PartOf(r, SealedArtifact) == r.sealedArtifact && PartOf(r, SealedSignature) == r.sealedSignature;
    kernel.CloseIfOpen(r.artifact);
    kernel.CloseIfOpen(r.signature);
    kernel.CloseIfOpen(r.sealedArtifact);
    kernel.CloseIfOpen(r.sealedSignature);
    assert kernel.files == old(kernel.files) - RecordKeys(r);
  }

  /** Destroys records: all their descriptors go, everything else stays. */
  method ReleaseRecords(
    kernel: Kernel, workspace: Workspace, records: seq<Record>, input: Option<nat>, ghost owner: map<nat, Slot>)
    returns (ghost left: map<nat, Slot>)
    requires Bookkept(workspace, records, input, owner) && owner.Keys <= kernel.files.Keys
    modifies kernel`files
    ensures Bookkept(workspace, [], input, left) && left.Keys <= owner.Keys && left.Keys <= kernel.files.Keys
    ensures kernel.files == old(kernel.files) - (owner.Keys - left.Keys)
  {
    left := owner;
    var i := |records|;
    assert records[..i] == records;
    while i > 0
      invariant 0 <= i <= |records|
      invariant Bookkept(workspace, records[..i], input, left)
      invariant left.Keys <= owner.Keys && left.Keys <= kernel.files.Keys
      invariant kernel.files == old(kernel.files) - (owner.Keys - left.Keys)
    {
      i := i - 1;
      assert records[..i + 1][..i] == records[..i];
      LastRecordApart(workspace, records[..i + 1], input, left);
      CloseRecord(kernel, records[i]);
      left := left - RecordKeys(records[i]);
    }
  }

  method ReleaseInput(kernel: Kernel, workspace: Workspace, input: Option<nat>, ghost owner: map<nat, Slot>)
    returns (ghost left: map<nat, Slot>)
    requires Bookkept(workspace, [], input, owner) && owner.Keys <= kernel.files.Keys
    modifies kernel`files
    ensures Bookkept(workspace, [], None, left) && left.Keys <= owner.Keys && left.Keys <= kernel.files.Keys
    ensures kernel.files == old(kernel.files) - (owner.Keys - left.Keys)
  {
    left := NoInputBookkept(workspace, input, owner);
    kernel.CloseIfOpen(input);
    assert owner.Keys - left.Keys == if input.Some? then {input.value} else {};
  }

  lemma OwnedAreClosed(
    before: map<nat, File>, owned: set<nat>, middle: map<nat, File>, left: set<nat>, after: map<nat, File>,
    rest: set<nat>)
    requires rest <= left <= owned
    requires middle == before - (owned - left) && after == middle - (left - rest)
    ensures Elsewhere(before, owned, after, rest)
  {
  }

  class ValidatedPackageArtifactSet {
    const kernel: Kernel
    var workspace: Workspace
    var records: seq<Record>
    var installInput: Option<nat>
    var state: OwnershipState
    ghost var owner: map<nat, Slot>

    ghost predicate Valid()
      reads this, kernel
    {
      && Bookkept(workspace, records, installInput, owner)
      && owner.Keys <= kernel.files.Keys
      && RecordsValid(records, kernel.files)
      && (installInput.Some? ==> installInput.value in kernel.files && kernel.files[installInput.value].isSealed)
      && (!state.Active? ==> records == [] && installInput.None?)
    }

    /** Takes over a workspace and freshly inspected records. */
    constructor (kernel: Kernel, workspace: Workspace, records: seq<Record>, ghost owner: map<nat, Slot>)
      requires Bookkept(workspace, records, None, owner) && owner.Keys <= kernel.files.Keys
      requires RecordsValid(records, kernel.files)
      ensures Valid() && this.kernel == kernel && this.owner == owner
      ensures this.workspace == workspace && this.records == records && installInput.None? && state.Active?
    {
      this.kernel, this.workspace, this.records, this.owner := kernel, workspace, records, owner;
      installInput, state := None, Active;
    }

    constructor Move(other: ValidatedPackageArtifactSet)
      requires other.Valid()
      modifies other
      ensures Valid() && other.Valid() && kernel == other.kernel
      ensures owner == old(other.owner) && other.owner == map[]
      ensures workspace == old(other.workspace) && records == old(other.records)
      ensures installInput == old(other.installInput) && state == old(other.state)
      ensures other.state.Inactive?
    {
      kernel, workspace, records := other.kernel, other.workspace, other.records;
      installInput, state, owner := other.installInput, other.state, other.owner;
      new;
      other.workspace := other.workspace.(descriptor := None, ownsPath := false);
      other.records, other.installInput, other.state, other.owner := [], None, Inactive, map[];
    }

    /** The names and retained descriptors still are what was validated. */
    method RequireValidity() returns (ok: bool)
      requires Valid()
      modifies kernel`verdicts
      ensures ok == (state.Active? && records != [] && Passes(old(kernel.verdicts), 0))
      ensures ok ==> kernel.verdicts == After(old(kernel.verdicts), 1)
    {
      if !state.Active? || records == [] {
        return false;
      }
      ok := kernel.NextVerdict();
    }

    method Size() returns (size: Option<nat>)
      ensures size == if state.Active? && records != [] then Some(|records|) else None
    {
      size := if state.Active? && records != [] then Some(|records|) else None;
    }

    /** An artifact's path is only handed out while the set is active. */
    method PathAt(index: nat) returns (leaf: Option<string>)
      ensures leaf == if state.Active? && index < |records| then Some(records[index].leaf) else None
    {
      leaf := if state.Active? && index < |records| then Some(records[index].leaf) else None;
    }

    /** Seals record `i` within the remaining budget, both copies or neither. */
    method SealRecord(i: nat, remaining: nat) returns (left: Option<nat>)
      requires Valid() && i < |records| && records[i].sealedArtifact.None?
      modifies this`records, this`owner, kernel`files, kernel`script
      ensures Valid()
      ensures Unchanged(old(kernel.files), kernel.files)
      ensures kernel.files.Keys - owner.Keys == old(kernel.files.Keys - owner.Keys)
      ensures |records| == |old(records)|
      ensures left.None? ==> records == old(records) && owner == old(owner) && kernel.files == old(kernel.files)
      ensures left.Some? ==>
        && records == old(records)[i := records[i]] && OnlySeals(old(records)[i], records[i])
        && ContentAgrees(records[i], kernel.files)
        && left.value + |SealedBytes(records[i], kernel.files)| == remaining
      ensures var pass := PassFor(Sealing, LiveExtent(old(records)[i], old(kernel.files)), old(kernel.script));
        && (left.Some? <==>
              && Sealable(old(records)[i], old(kernel.files))
              && LiveSize(old(records)[i], old(kernel.files)) <= remaining
              && pass.Some?)
        && (left.Some? ==> kernel.script == pass.value)
    {
      ghost var before := kernel.files;
      var done, rest := SealContent(kernel, records[i], remaining);
      if done.None? {
        return None;
      }
      RecordsKept(records, before, kernel.files);
      SealsBookkept(
        workspace, records, installInput, owner, i, done.value.sealedArtifact.value, done.value.sealedSignature);
      owner := WithSeals(owner, i, done.value.sealedArtifact.value, done.value.sealedSignature);
      records := records[i := done.value];
      left := Some(rest);
    }

    /** Keeps an earlier seal or makes a new one, within the remaining budget. */
    method BindRecord(i: nat, remaining: nat) returns (left: Option<nat>)
      requires Valid() && i < |records|
      modifies this`records, this`owner, kernel`files, kernel`script
      ensures Valid()
      ensures kernel.files.Keys - owner.Keys == old(kernel.files.Keys - owner.Keys)
      ensures Unchanged(old(kernel.files), kernel.files)
      ensures |records| == |old(records)| && records == old(records)[i := records[i]]
      ensures OnlySeals(old(records)[i], records[i])
      ensures left.None? ==> records == old(records)
      ensures left.Some? ==>
        && records[i].sealedArtifact.Some?
        && (old(records)[i].sealedArtifact.None? ==> ContentAgrees(records[i], kernel.files))
        && left.value + |SealedBytes(records[i], kernel.files)| == remaining
      ensures RecordValid(old(records)[i], old(kernel.files))
      ensures var pass := BindPass(old(records)[i], old(kernel.files), old(kernel.script));
        && (left.Some? <==>
              && MayBind(old(records)[i], old(kernel.files))
              && BindSize(old(records)[i], old(kernel.files)) <= remaining
              && pass.Some?)
        && (left.Some? ==> kernel.script == pass.value)
    {
      assert RecordValid(records[i], kernel.files);
      if records[i].sealedArtifact.None? {
        left := SealRecord(i, remaining);
        return;
      }
      var rest := remaining;
      var size := SizeOf(kernel.files, records[i].sealedArtifact);
      if size > rest {
        return None;
      }
      rest := rest - size;
      size := SizeOf(kernel.files, records[i].sealedSignature);
      if size > rest {
        return None;
      }
      left := Some(rest - size);
    }

    /** Binds the records in turn.  Since the budget only shrinks, it suffices
        exactly when all that has to be held fits together. */
    method BindRecords() returns (ok: bool)
      requires Valid()
      modifies this`records, this`owner, kernel`files, kernel`script
      ensures Valid()
      ensures kernel.files.Keys - owner.Keys == old(kernel.files.Keys - owner.Keys)
      ensures Bound(old(records), old(kernel.files), records, kernel.files)
      ensures ok ==> SealedTotal(records, kernel.files) <= MAXIMUM_TRANSACTION_BYTES
      ensures ok ==> forall i | 0 <= i < |records| :: records[i].sealedArtifact.Some?
      ensures var pass := PassAll(Sealing, UnsealedExtents(old(records), old(kernel.files)), old(kernel.script));
        && (ok <==> AllFit(old(records), old(kernel.files)) && pass.Some?)
        && (ok ==> kernel.script == pass.value)
    {
      var remaining: nat := MAXIMUM_TRANSACTION_BYTES;
      ghost var start, originals := records, kernel.files;
      for i := 0 to |records|
        invariant Valid()
        invariant kernel.files.Keys - owner.Keys == old(kernel.files.Keys - owner.Keys)
        invariant BoundUpTo(start, originals, records, kernel.files, i)
        invariant BindPassedUpTo(start, originals, old(kernel.script), i, kernel.script)
        invariant remaining + BindTotal(start[..i], originals) == MAXIMUM_TRANSACTION_BYTES
      {
        ghost var before, files, script := records, kernel.files, kernel.script;
        var left := BindRecord(i, remaining);
        BoundMore(start, originals, before, files, records, kernel.files, i);
        OneMoreFits(start, originals, files, i, remaining);
        BindPassMore(start, originals, files, old(kernel.script), i, script);
        if left.None? {
          return false;
        }
        remaining := left.value;
      }
      assert start[..|start|] == start;
      SealedTotalIsBindTotal(start, originals, records, kernel.files);
      ok := true;
    }

    /** The live sizes fit the transport limit before anything is copied. */
    method FitsTransaction() returns (ok: bool)
      requires Valid()
      ensures ok <==> LiveTotal(records, kernel.files) <= MAXIMUM_TRANSACTION_BYTES
    {
      var total: nat := 0;
      assert records[..|records|] == records;
      for i := 0 to |records|
        invariant total == LiveTotal(records[..i], kernel.files) <= MAXIMUM_TRANSACTION_BYTES
      {
        assert records[..i + 1][..i] == records[..i];
        LiveTotalGrows(records, kernel.files, i + 1);
        var size := SizeOf(kernel.files, records[i].artifact);
        if size > MAXIMUM_TRANSACTION_BYTES - total {
          return false;
        }
        total := total + size;
        size := SizeOf(kernel.files, records[i].signature);
        if size > MAXIMUM_TRANSACTION_BYTES - total {
          return false;
        }
        total := total + size;
      }
      ok := true;
    }

    /** Freezes the content of every record.  Sealing is all or nothing for each
        record, an earlier seal is kept, and no copy takes more than the budget
        that is left. */
    method BindInstallContent() returns (ok: bool)
      requires Valid()
      modifies this`records, this`owner, kernel`files, kernel`script, kernel`verdicts
      ensures Valid()
      ensures kernel.files.Keys - owner.Keys == old(kernel.files.Keys - owner.Keys)
      ensures Bound(old(records), old(kernel.files), records, kernel.files)
      ensures ok ==>
        && state.Active? && SealedTotal(records, kernel.files) <= MAXIMUM_TRANSACTION_BYTES
        && AllAgree(records, kernel.files)
      ensures var pass := Pass(BindPlan(old(records), old(kernel.files)), old(kernel.script));
        && (ok <==>
              && state.Active? && old(records) != [] && PassesAll(old(kernel.verdicts), 3)
              && CanBind(old(records), old(kernel.files)) && pass.Some?)
        && (ok ==> kernel.script == pass.value && kernel.verdicts == After(old(kernel.verdicts), 3))
    {
      ghost var start, originals := records, kernel.files;
      PassesInTurn(kernel.verdicts, 1, 2);
      CanBindFits(start, originals);
      NothingBound(start, originals);
      ok := BeginBind();
      if ok {
        ok := BindAndRecheck();
      }
    }

    /** The first checks of a bind: the set is valid and its content fits. */
    method BeginBind() returns (ok: bool)
      requires Valid()
      modifies kernel`verdicts
      ensures ok <==>
        && state.Active? && records != [] && PassesAll(old(kernel.verdicts), 1)
        && LiveTotal(records, kernel.files) <= MAXIMUM_TRANSACTION_BYTES
      ensures ok ==> kernel.verdicts == After(old(kernel.verdicts), 1)
    {
      ok := RequireValidity();
      if ok {
        ok := FitsTransaction();
      }
    }

    /** The part of a bind after its first checks. */
    method BindAndRecheck() returns (ok: bool)
      requires Valid() && state.Active? && records != []
      requires LiveTotal(records, kernel.files) <= MAXIMUM_TRANSACTION_BYTES
      modifies this`records, this`owner, kernel`files, kernel`script, kernel`verdicts
      ensures Valid()
      ensures kernel.files.Keys - owner.Keys == old(kernel.files.Keys - owner.Keys)
      ensures Bound(old(records), old(kernel.files), records, kernel.files)
      ensures ok ==>
        SealedTotal(records, kernel.files) <= MAXIMUM_TRANSACTION_BYTES && AllAgree(records, kernel.files)
      ensures var pass := Pass(BindPlan(old(records), old(kernel.files)), old(kernel.script));
        && (ok <==>
              PassesAll(old(kernel.verdicts), 2) && CanBind(old(records), old(kernel.files)) && pass.Some?)
        && (ok ==> kernel.script == pass.value && kernel.verdicts == After(old(kernel.verdicts), 2))
    {
      ghost var start, originals := records, kernel.files;
      BindInTurn(start, originals, kernel.script);
      CanBindFits(start, originals);
      ok := BindRecords();
      if ok {
        ok := RecheckBound(start, originals);
      }
    }

    /** The recheck that ends a bind. */
    method RecheckBound(ghost start: seq<Record>, ghost originals: map<nat, File>) returns (ok: bool)
      requires Valid() && RecordsValid(start, originals)
      requires Bound(start, originals, records, kernel.files) && AllFit(start, originals)
      requires forall i | 0 <= i < |records| :: records[i].sealedArtifact.Some?
      requires LiveTotal(start, originals) <= MAXIMUM_TRANSACTION_BYTES
      modifies kernel`script, kernel`verdicts
      ensures ok ==> state.Active? && AllAgree(records, kernel.files)
      ensures var pass := PassAll(Comparing, LiveExtents(start, originals), old(kernel.script));
        && (ok <==>
              && state.Active? && records != [] && PassesAll(old(kernel.verdicts), 2)
              && CanBind(start, originals) && pass.Some?)
        && (ok ==> kernel.script == pass.value && kernel.verdicts == After(old(kernel.verdicts), 2))
    {
      BoundAgree(start, originals, records, kernel.files);
      BoundExtents(start, originals, records, kernel.files);
      ok := RequireInstallContent();
    }

    /** Passes exactly when the set is usable, both validity checks pass, every
        sealed copy still equals its retained original, and no read of the whole
        pass over the records came back short. */
    method RequireInstallContent() returns (ok: bool)
      requires Valid()
      modifies kernel`script, kernel`verdicts
      ensures var pass := PassAll(Comparing, LiveExtents(records, kernel.files), old(kernel.script));
        && (ok <==>
              && state.Active? && records != [] && PassesAll(old(kernel.verdicts), 2)
              && AllAgree(records, kernel.files) && pass.Some?)
        && (ok ==> kernel.script == pass.value && kernel.verdicts == After(old(kernel.verdicts), 2))
    {
      PassesInTurn(kernel.verdicts, 1, 1);
      ok := RequireValidity();
      if !ok {
        return;
      }
      ghost var files, script := kernel.files, kernel.script;
      NothingPassed(Comparing, LiveExtents(records, files), script);
      for i := 0 to |records|
        invariant ComparedUpTo(records, files, script, i, kernel.script)
        invariant kernel.verdicts == After(old(kernel.verdicts), 1)
      {
        ComparedMore(records, files, script, i, kernel.script);
        ok := RequireSameRecord(records[i]);
        if !ok {
          return;
        }
      }
      AllPassed(Comparing, LiveExtents(records, files), script, kernel.script);
      ok := RequireValidity();
    }

    /** Archive and signature of one record against their sealed copies. */
    method RequireSameRecord(record: Record) returns (ok: bool)
      requires RecordValid(record, kernel.files)
      modifies kernel`script
      ensures var pass := PassFor(Comparing, LiveExtent(record, kernel.files), old(kernel.script));
        && (ok <==> ContentAgrees(record, kernel.files) && pass.Some?)
        && (ok ==> kernel.script == pass.value)
    {
      CompareInTurn(LiveExtent(record, kernel.files), kernel.script);
      ok := RequireSameInstallContent(kernel, record.artifact.value, record.sealedArtifact);
      if ok && record.hasSignature {
        ok := RequireSameInstallContent(kernel, record.signature.value, record.sealedSignature);
      }
    }

    /** Builds the sealed concatenation an installer consumes.  A failure leaves
        the previous input and every descriptor as they were. */
    method CreateInstallInput(indices: seq<nat>) returns (fd: Option<nat>)
      requires Valid()
      modifies this`installInput, this`owner, kernel`files, kernel`script, kernel`verdicts
      ensures Valid()
      ensures kernel.files.Keys - owner.Keys == old(kernel.files.Keys - owner.Keys)
      ensures forall i | 0 <= i < |records| :: SameFor(records[i], old(kernel.files), kernel.files)
      ensures fd.None? ==>
        kernel.files == old(kernel.files) && installInput == old(installInput) && owner == old(owner)
      ensures fd.Some? ==>
        && installInput == fd && fd.value !in old(kernel.files) && fd.value in kernel.files
        && AllAgree(records, kernel.files)
        && AreIndices(indices, |records|)
        && kernel.files[fd.value] == File(InstallInput(records, kernel.files, indices), true, true)
        && UnchangedExcept(old(kernel.files), kernel.files, old(installInput))
        && kernel.verdicts == After(old(kernel.verdicts), 4)
      ensures fd.Some? <==>
        && state.Active? && records != [] && PassesAll(old(kernel.verdicts), 4)
        && AllAgree(records, old(kernel.files)) && AreIndices(indices, |records|)
        && Pass(InputPlan(LiveExtents(records, old(kernel.files)), indices), old(kernel.script)).Some?
      ensures fd.Some? ==>
        kernel.script == Pass(InputPlan(LiveExtents(records, old(kernel.files)), indices), old(kernel.script)).value
    {
      UnchangedForRecords(records, kernel.files, kernel.files);
      ghost var extents := LiveExtents(records, kernel.files);
      if AreIndices(indices, |records|) {
        PassInTurn(Plan(Comparing, extents), BuildPlan(extents, indices), kernel.script);
      }
      PassesInTurn(kernel.verdicts, 2, 2);
      var same := RequireInstallContent();
      if !same {
        return None;
      }
      fd := BuildAndAdopt(indices);
    }

    method BuildAndAdopt(indices: seq<nat>) returns (fd: Option<nat>)
      requires Valid() && state.Active? && records != [] && AllAgree(records, kernel.files)
      modifies this`installInput, this`owner, kernel`files, kernel`script, kernel`verdicts
      ensures Valid()
      ensures kernel.files.Keys - owner.Keys == old(kernel.files.Keys - owner.Keys)
      ensures forall i | 0 <= i < |records| :: SameFor(records[i], old(kernel.files), kernel.files)
      ensures fd.None? ==>
        kernel.files == old(kernel.files) && installInput == old(installInput) && owner == old(owner)
      ensures fd.Some? ==>
        && installInput == fd && fd.value !in old(kernel.files) && fd.value in kernel.files
        && AllAgree(records, kernel.files)
        && AreIndices(indices, |records|)
        && kernel.files[fd.value] == File(InstallInput(records, kernel.files, indices), true, true)
        && UnchangedExcept(old(kernel.files), kernel.files, old(installInput))
        && kernel.verdicts == After(old(kernel.verdicts), 2)
      ensures fd.Some? <==>
        && PassesAll(old(kernel.verdicts), 2) && AreIndices(indices, |records|)
        && Pass(BuildPlan(LiveExtents(records, old(kernel.files)), indices), old(kernel.script)).Some?
      ensures fd.Some? ==>
        kernel.script == Pass(BuildPlan(LiveExtents(records, old(kernel.files)), indices), old(kernel.script)).value
    {
      ghost var start := kernel.files;
      UnchangedForRecords(records, start, start);
      fd := BuildInput(indices);
      if fd.Some? {
        UnchangedForRecords(records, start, kernel.files);
        AdoptInput(fd.value, indices);
      }
    }

    method AdoptInput(input: nat, ghost indices: seq<nat>)
      requires Valid() && state.Active? && input in kernel.files && input !in owner && kernel.files[input].isSealed
      requires forall i | 0 <= i < |records| ::
                 records[i].sealedArtifact.Some? && ContentAgrees(records[i], kernel.files)
      requires AreIndices(indices, |records|)
      modifies this`installInput, this`owner, kernel`files
      ensures Valid() && installInput == Some(input) && input in kernel.files
      ensures kernel.files.Keys - owner.Keys == old(kernel.files.Keys - owner.Keys) - {input}
      ensures UnchangedExcept(old(kernel.files), kernel.files, old(installInput))
      ensures forall i | 0 <= i < |records| :: SameFor(records[i], old(kernel.files), kernel.files)
      ensures AllAgree(records, kernel.files)
      ensures InstallInput(records, kernel.files, indices) == InstallInput(records, old(kernel.files), indices)
    {
      ghost var built := kernel.files;
      assert installInput == Held(workspace, records, installInput, OfInput);
      kernel.CloseIfOpen(installInput);
      InputIsApart(workspace, records, installInput, owner, built, kernel.files);
      KeptFor(records, built, kernel.files);
      InputKept(records, built, kernel.files, indices);
      InputBookkept(workspace, records, installInput, owner, input);
      owner := WithInput(owner, installInput, input);
      installInput := Some(input);
    }

    /** Copies the chosen records into a new sealed descriptor and rechecks the
        set; on failure nothing stays open. */
    method BuildInput(indices: seq<nat>) returns (fd: Option<nat>)
      requires Valid() && state.Active? && records != [] && AllAgree(records, kernel.files)
      modifies kernel`files, kernel`script, kernel`verdicts
      ensures Unchanged(old(kernel.files), kernel.files)
      ensures fd.None? ==> kernel.files == old(kernel.files)
      ensures fd.Some? ==>
        && fd.value !in old(kernel.files) && kernel.files.Keys == old(kernel.files).Keys + {fd.value}
        && AreIndices(indices, |records|)
        && RecordsValid(records, kernel.files)
        && AllAgree(records, kernel.files)
        && kernel.files[fd.value] == File(InstallInput(records, kernel.files, indices), true, true)
        && kernel.verdicts == After(old(kernel.verdicts), 2)
      ensures fd.Some? <==>
        && PassesAll(old(kernel.verdicts), 2) && AreIndices(indices, |records|)
        && Pass(BuildPlan(LiveExtents(records, old(kernel.files)), indices), old(kernel.script)).Some?
      ensures fd.Some? ==>
        kernel.script == Pass(BuildPlan(LiveExtents(records, old(kernel.files)), indices), old(kernel.script)).value
    {
      ghost var start, extents := kernel.files, LiveExtents(records, kernel.files);
      if AreIndices(indices, |records|) {
        BuildInTurn(extents, indices, kernel.script);
      }
      fd := kernel.CreateMemory();
      if fd.None? {
        return;
      }
      var done := CopyAndSeal(fd.value, indices, start);
      if done {
        done := RecheckAfter(start, indices);
      }
      if !done {
        kernel.Close(fd.value);
        return None;
      }
    }

    method CopyAndSeal(destination: nat, indices: seq<nat>, ghost start: map<nat, File>) returns (done: bool)
      requires RecordsValid(records, start) && AllAgree(records, start)
      requires destination !in start && kernel.files == start[destination := File([], true, false)]
      modifies kernel`files, kernel`script
      ensures Unchanged(start, kernel.files) && kernel.files.Keys == start.Keys + {destination}
      ensures kernel.files - {destination} == start
      ensures done ==>
        && AreIndices(indices, |records|)
        && kernel.files[destination] == File(InstallInput(records, start, indices), true, true)
      ensures done <==> AreIndices(indices, |records|) && SealedCopies(start, indices, old(kernel.script)).Some?
      ensures done ==> kernel.script == SealedCopies(start, indices, old(kernel.script)).value
    {
      done := CopySealed(destination, indices, start);
      if done {
        done := kernel.Seal(destination);
      }
      assert kernel.files - {destination} == start;
    }

    /** What copying the chosen records and sealing the input leaves of the script. */
    ghost function SealedCopies(
      start: map<nat, File>, indices: seq<nat>, script: seq<Outcome>): Option<seq<Outcome>>
      requires AreIndices(indices, |records|)
      reads this
    {
      var copied := PassAll(Copying, ChosenExtents(LiveExtents(records, start), indices), script);
      if copied.None? then None else CallPass(copied.value)
    }

    /** The recheck once the input is built: the copies are where they were. */
    method RecheckAfter(ghost start: map<nat, File>, ghost indices: seq<nat>) returns (ok: bool)
      requires Valid() && RecordsValid(records, start) && Unchanged(start, kernel.files)
      requires state.Active? && records != [] && AllAgree(records, start) && AreIndices(indices, |records|)
      modifies kernel`script, kernel`verdicts
      ensures RecordsValid(records, kernel.files) && AllAgree(records, kernel.files)
      ensures InstallInput(records, start, indices) == InstallInput(records, kernel.files, indices)
      ensures var pass := PassAll(Comparing, LiveExtents(records, start), old(kernel.script));
        && (ok <==> PassesAll(old(kernel.verdicts), 2) && pass.Some?)
        && (ok ==> kernel.script == pass.value && kernel.verdicts == After(old(kernel.verdicts), 2))
    {
      UnchangedForRecords(records, start, kernel.files);
      KeptFor(records, start, kernel.files);
      InputKept(records, start, kernel.files, indices);
      LiveExtentsKept(records, start, kernel.files);
      ok := RequireInstallContent();
    }

    method CopySealed(destination: nat, indices: seq<nat>, ghost start: map<nat, File>) returns (done: bool)
      requires RecordsValid(records, start) && AllAgree(records, start)
      requires destination !in start && kernel.files == start[destination := File([], true, false)]
      modifies kernel`files, kernel`script
      ensures OnlyGrew(old(kernel.files), kernel.files, destination)
      ensures done ==>
        AreIndices(indices, |records|) && kernel.files[destination].content == InstallInput(records, start, indices)
      ensures AreIndices(indices, |records|) ==>
        var pass := PassAll(Copying, ChosenExtents(LiveExtents(records, start), indices), old(kernel.script));
        (done <==> pass.Some?) && (done ==> kernel.script == pass.value)
    {
      ghost var extents := LiveExtents(records, start);
      NothingPassed(Copying, [], kernel.script);
      for j := 0 to |indices|
        invariant HoldsInput(destination, indices, j, start)
        invariant OnlyGrew(old(kernel.files), kernel.files, destination)
        invariant CopiedUpTo(extents, indices, old(kernel.script), j, kernel.script)
      {
        if indices[j] >= |records| {
          return false;
        }
        CopyMore(extents, indices, old(kernel.script), j, kernel.script);
        InputMore(records, start, indices, j);
        var copied := CopyRecord(destination, records[indices[j]], start);
        if !copied {
          return false;
        }
      }
      assert indices[..|indices|] == indices;
      done := true;
    }

    /** The first `j` chosen records are in the input. */
    ghost predicate HoldsInput(destination: nat, indices: seq<nat>, j: nat, start: map<nat, File>)
      reads this, kernel
    {
      && RecordsValid(records, start) && AllAgree(records, start)
      && j <= |indices| && AreIndices(indices[..j], |records|)
      && destination !in start && OnlyGrew(start[destination := File([], true, false)], kernel.files, destination)
      && kernel.files[destination].content == InstallInput(records, start, indices[..j])
    }

    /** Appends a record's sealed archive and, if there is one, its signature. */
    method CopyRecord(destination: nat, record: Record, ghost start: map<nat, File>) returns (done: bool)
      requires RecordValid(record, start) && ContentAgrees(record, start)
      requires destination !in start && OnlyGrew(start[destination := File([], true, false)], kernel.files, destination)
      modifies kernel`files, kernel`script
      ensures OnlyGrew(old(kernel.files), kernel.files, destination)
      ensures OnlyGrew(start[destination := File([], true, false)], kernel.files, destination)
      ensures done ==>
        kernel.files[destination].content == old(kernel.files[destination].content) + SealedBytes(record, start)
      ensures var pass := PassFor(Copying, LiveExtent(record, start), old(kernel.script));
        (done <==> pass.Some?) && (done ==> kernel.script == pass.value)
    {
      CopyInTurn(LiveExtent(record, start), kernel.script);
      var copied := CopyInstallBytes(kernel, record.sealedArtifact.value, destination, MAXIMUM_ARTIFACT_BYTES);
      if copied.None? {
        return false;
      }
      if record.hasSignature {
        copied := CopyInstallBytes(kernel, record.sealedSignature.value, destination, MAXIMUM_ARTIFACT_BYTES);
      }
      done := copied.Some?;
    }

    /** Ends the artifacts' capability and then the workspace.  Refusals change
        nothing; a workspace that could not be removed is kept for a retry. */
    method CleanupWorkspace(workspaceCleans: bool) returns (r: CleanupReport)
      requires Valid()
      modifies this, kernel
      ensures Valid()
      ensures Elsewhere(old(kernel.files), old(owner.Keys), kernel.files, owner.Keys)
      ensures r == (
        if old(state).Inactive? then NotOwned
        else if old(state).Active? && !(old(records) != [] && Passes(old(kernel.verdicts), 0)) then NotValid
        else if old(workspace).ownsPath && !workspaceCleans then WorkspaceKept
        else WorkspaceGone)
      ensures r.NotOwned? || r.NotValid? ==>
        && kernel.files == old(kernel.files) && owner == old(owner) && state == old(state)
        && records == old(records) && installInput == old(installInput) && workspace == old(workspace)
      ensures r.WorkspaceKept? ==> state.WorkspaceCleanupPending? && workspace == old(workspace)
      ensures r.WorkspaceGone? ==> state.Inactive? && !workspace.ownsPath
      ensures r.WorkspaceGone? && old(workspace).ownsPath ==> owner == map[]
      ensures r.WorkspaceKept? || r.WorkspaceGone? ==> records == [] && installInput.None?
    {
      if state.Inactive? {
        return NotOwned;
      }
      if state.Active? {
        var valid := RequireValidity();
        if !valid {
          return NotValid;
        }
        EndCapability();
        state := WorkspaceCleanupPending;
      }
      if workspace.ownsPath {
        if !workspaceCleans {
          return WorkspaceKept;
        }
        CloseWorkspace();
        NothingHeld(workspace, owner);
      }
      state := Inactive;
      r := WorkspaceGone;
    }

    /** Closes the records' descriptors and the install input. */
    method EndCapability()
      requires Valid()
      modifies this`records, this`installInput, this`owner, kernel`files
      ensures Valid() && records == [] && installInput.None?
      ensures Elsewhere(old(kernel.files), old(owner.Keys), kernel.files, owner.Keys)
    {
      ghost var before, owned := kernel.files, owner.Keys;
      ghost var left := ReleaseRecords(kernel, workspace, records, installInput, owner);
      ghost var middle := kernel.files;
      ghost var rest := ReleaseInput(kernel, workspace, installInput, left);
      OwnedAreClosed(before, owned, middle, left.Keys, kernel.files, rest.Keys);
      records, installInput, owner := [], None, rest;
    }

    /** A workspace that was removed, or is given up, closes its descriptor. */
    method CloseWorkspace()
      requires Valid()
      modifies this`workspace, this`owner, kernel`files
      ensures Bookkept(workspace, records, installInput, owner) && owner.Keys <= kernel.files.Keys
      ensures workspace == old(workspace).(descriptor := None, ownsPath := false)
      ensures Elsewhere(old(kernel.files), old(owner.Keys), kernel.files, owner.Keys)
      ensures records == [] ==> Valid()
    {
      ghost var rest := NoWorkspaceBookkept(workspace, records, installInput, owner);
      kernel.CloseIfOpen(workspace.descriptor);
      workspace, owner := workspace.(descriptor := None, ownsPath := false), rest;
    }

    /** Keeps the workspace on disk when the object is destroyed. */
    method RetainWorkspace() returns (ok: bool)
      requires Valid()
      modifies this`workspace
      ensures Valid() && ok == !state.Inactive?
      ensures workspace == if ok then old(workspace).(cleanupOnDestruction := false) else old(workspace)
    {
      if state.Inactive? {
        return false;
      }
      ghost var before := workspace;
      workspace := workspace.(cleanupOnDestruction := false);
      forall slot ensures Held(workspace, records, installInput, slot) == Held(before, records, installInput, slot) {
      }
      ok := true;
    }

    /** The destructor: everything still owned is closed, and a workspace that is
        not retained for diagnostics is cleaned up as far as possible. */
    method Destroy(workspaceCleans: bool)
      requires Valid()
      modifies this, kernel
      ensures Valid() && owner == map[]
      ensures kernel.files.Keys == old(kernel.files.Keys) - old(owner.Keys)
      ensures Elsewhere(old(kernel.files), old(owner.Keys), kernel.files, {})
    {
      EndCapability();
      if workspace.ownsPath && workspace.cleanupOnDestruction && workspaceCleans {
        CloseWorkspace();
      }
      if workspace.descriptor.Some? {
        CloseWorkspace();
      }
      state := Inactive;
      NothingHeld(workspace, owner);
    }
  }

  lemma NothingHeld(workspace: Workspace, owner: map<nat, Slot>)
    requires workspace.descriptor.None? && Bookkept(workspace, [], None, owner)
    ensures owner == map[]
  {
    forall fd | fd in owner ensures Held(workspace, [], None, owner[fd]) == Some(fd) {
    }
    assert owner.Keys == {};
  }

  // ----- validating a build -----

  /** What the workspace holds for one expected artifact. */
  datatype Found = Found(leaf: string, artifact: File, signature: Option<File>)

  ghost function ExtentFound(found: Found): Extent {
    Extent(|found.artifact.content|, if found.signature.Some? then Some(|found.signature.value.content|) else None)
  }

  ghost function ExtentsFound(found: seq<Found>): (r: seq<Extent>)
    ensures |r| == |found|
  {
    seq(|found|, i requires 0 <= i < |found| => ExtentFound(found[i]))
  }

  /** The record retains descriptors of the found artifact and of its signature. */
  ghost predicate Retains(r: Record, files: map<nat, File>, found: Found) {
    && r.leaf == found.leaf && r.sealedArtifact.None? && r.hasSignature == found.signature.Some?
    && r.artifact.Some? && r.artifact.value in files && files[r.artifact.value] == found.artifact
    && r.signature.Some? == found.signature.Some?
    && (r.signature.Some? ==> r.signature.value in files && files[r.signature.value] == found.signature.value)
  }

  ghost predicate RetainsAll(records: seq<Record>, files: map<nat, File>, found: seq<Found>) {
    |records| <= |found| && forall i | 0 <= i < |records| :: Retains(records[i], files, found[i])
  }

  lemma RetainsOneMore(
    records: seq<Record>, before: map<nat, File>, after: map<nat, File>, found: seq<Found>, r: Record)
    requires RetainsAll(records, before, found) && |records| < |found| && Unchanged(before, after)
    requires Retains(r, after, found[|records|])
    ensures RetainsAll(records + [r], after, found)
  {
    forall i | 0 <= i < |records| ensures Retains(records[i], after, found[i]) {
      assert Retains(records[i], before, found[i]);
    }
  }

  /** Opens every artifact and signature.  Only when all are open and the final
      identity checks agree does a set take over the workspace; otherwise every
      descriptor opened here is closed and the workspace stays with the caller. */
  method ValidatePostBuild(kernel: Kernel, workspace: Workspace, found: seq<Found>, ghost owner: map<nat, Slot>)
    returns (r: Option<ValidatedPackageArtifactSet>)
    requires Bookkept(workspace, [], None, owner) && owner.Keys <= kernel.files.Keys
    modifies kernel
    ensures r.None? ==> kernel.files == old(kernel.files)
    ensures r.Some? ==>
      && fresh(r.value) && r.value.Valid() && r.value.kernel == kernel
      && r.value.state.Active? && r.value.installInput.None?
      && r.value.workspace == workspace && |r.value.records| == |found|
      && RetainsAll(r.value.records, kernel.files, found)
      && Elsewhere(old(kernel.files), owner.Keys, kernel.files, r.value.owner.Keys)
      && kernel.verdicts == After(old(kernel.verdicts), 1)
    ensures var pass := PassAll(Opening, ExtentsFound(found), old(kernel.script));
      && (r.Some? <==> found != [] && Passes(old(kernel.verdicts), 0) && pass.Some?)
      && (r.Some? ==> kernel.script == pass.value)
  {
    ghost var originals, extents := kernel.files, ExtentsFound(found);
    NothingPassed(Opening, extents, kernel.script);
    var records: seq<Record> := [];
    ghost var owned := owner;
    for i := 0 to |found|
      invariant |records| == i && HaveOpened(workspace, originals, owner, found, records, owned, kernel.files)
      invariant PassedUpTo(Opening, extents, old(kernel.script), i, kernel.script)
      invariant kernel.verdicts == old(kernel.verdicts)
    {
      ghost var before := kernel.files;
      PassMore(Opening, extents, old(kernel.script), i, kernel.script);
      var one := OpenRecord(kernel, found[i]);
      if one.None? {
        GiveBack(kernel, workspace, records, originals, owner, owned);
        return None;
      }
      owned := OpenedMore(workspace, originals, owner, found, records, owned, before, kernel.files, one.value);
      records := records + [one.value];
    }
    AllPassed(Opening, extents, old(kernel.script), kernel.script);
    var ok := found != [];
    if ok {
      ok := kernel.NextVerdict();
    }
    if !ok {
      GiveBack(kernel, workspace, records, originals, owner, owned);
      return None;
    }
    var artifacts := new ValidatedPackageArtifactSet(kernel, workspace, records, owned);
    r := Some(artifacts);
  }

  /** The first records are open, each in descriptors of its own. */
  ghost predicate HaveOpened(
    workspace: Workspace, originals: map<nat, File>, owner: map<nat, Slot>, found: seq<Found>,
    records: seq<Record>, owned: map<nat, Slot>, files: map<nat, File>)
  {
    && Bookkept(workspace, records, None, owned) && owned.Keys <= files.Keys
    && RecordsValid(records, files) && RetainsAll(records, files, found)
    && Elsewhere(originals, owner.Keys, files, owned.Keys)
    && Unchanged(originals, files) && owner.Keys <= owned.Keys
  }

  lemma OpenedMore(
    workspace: Workspace, originals: map<nat, File>, owner: map<nat, Slot>, found: seq<Found>,
    records: seq<Record>, owned: map<nat, Slot>, before: map<nat, File>, after: map<nat, File>, r: Record)
    returns (more: map<nat, Slot>)
    requires HaveOpened(workspace, originals, owner, found, records, owned, before) && |records| < |found|
    requires Unchanged(before, after) && after.Keys == before.Keys + RecordKeys(r)
    requires Retains(r, after, found[|records|]) && RecordValid(r, after)
    requires RecordKeys(r) !! before.Keys && r.artifact != r.signature && r.sealedSignature.None?
    ensures HaveOpened(workspace, originals, owner, found, records + [r], more, after)
  {
    RecordsKept(records, before, after);
    RetainsOneMore(records, before, after, found, r);
    more := OneMoreRecord(workspace, records, owned, r);
  }

  /** Closes what has been opened so far. */
  method GiveBack(
    kernel: Kernel, workspace: Workspace, records: seq<Record>, ghost originals: map<nat, File>,
    ghost owner: map<nat, Slot>, ghost owned: map<nat, Slot>)
    requires Bookkept(workspace, records, None, owned) && owned.Keys <= kernel.files.Keys
    requires Bookkept(workspace, [], None, owner) && owner.Keys <= originals.Keys && owner.Keys <= owned.Keys
    requires Elsewhere(originals, owner.Keys, kernel.files, owned.Keys) && Unchanged(originals, kernel.files)
    modifies kernel`files
    ensures kernel.files == originals
  {
    ghost var before := kernel.files;
    ghost var left := ReleaseRecords(kernel, workspace, records, None, owned);
    OnlyWorkspaceLeft(workspace, owner, left);
    forall fd ensures fd in kernel.files <==> fd in originals {
      assert fd in before.Keys - owned.Keys <==> fd in originals.Keys - owner.Keys;
      assert fd in kernel.files <==> fd in before && (fd in owned ==> fd in left);
    }
    assert kernel.files == originals;
  }

  method OpenRecord(kernel: Kernel, found: Found) returns (r: Option<Record>)
    modifies kernel`files, kernel`script
    ensures Unchanged(old(kernel.files), kernel.files)
    ensures r.None? ==> kernel.files == old(kernel.files)
    ensures r.Some? ==>
      && Retains(r.value, kernel.files, found) && RecordValid(r.value, kernel.files)
      && r.value.sealedSignature.None?
      && RecordKeys(r.value) !! old(kernel.files).Keys && r.value.artifact != r.value.signature
      && kernel.files.Keys == old(kernel.files).Keys + RecordKeys(r.value)
    ensures var pass := PassFor(Opening, ExtentFound(found), old(kernel.script));
      (r.Some? <==> pass.Some?) && (r.Some? ==> kernel.script == pass.value)
  {
    OpenInTurn(ExtentFound(found), kernel.script);
    var artifact := kernel.OpenFile(found.artifact);
    if artifact.None? {
      return None;
    }
    var signature := None;
    if found.signature.Some? {
      signature := kernel.OpenFile(found.signature.value);
      if signature.None? {
        kernel.Close(artifact.value);
        assert kernel.files == old(kernel.files);
        return None;
      }
    }
    r := Some(Record(found.leaf, artifact, signature.Some?, signature, None, None));
  }

  lemma OneMoreRecord(workspace: Workspace, records: seq<Record>, owned: map<nat, Slot>, r: Record)
    returns (more: map<nat, Slot>)
    requires Bookkept(workspace, records, None, owned)
    requires RecordKeys(r) !! owned.Keys && r.artifact.Some? && r.artifact != r.signature
    requires r.sealedArtifact.None? && r.sealedSignature.None?
    ensures Bookkept(workspace, records + [r], None, more) && more.Keys == owned.Keys + RecordKeys(r)
  {
    var i := |records|;
    more := owned[r.artifact.value := OfRecord(i, Artifact)];
    if r.signature.Some? {
      more := more[r.signature.value := OfRecord(i, Signature)];
    }
    forall slot ensures Held(workspace, records + [r], None, slot) ==
      if slot.OfRecord? && slot.index == i then PartOf(r, slot.part) else Held(workspace, records, None, slot)
    {
    }
  }

  lemma OnlyWorkspaceLeft(workspace: Workspace, owner: map<nat, Slot>, left: map<nat, Slot>)
    requires Bookkept(workspace, [], None, owner) && Bookkept(workspace, [], None, left)
    ensures left == owner
  {
    forall fd | fd in left ensures fd in owner && owner[fd] == left[fd] {
      assert Held(workspace, [], None, left[fd]) == Some(fd);
    }
    forall fd | fd in owner ensures fd in left {
      assert Held(workspace, [], None, owner[fd]) == Some(fd);
    }
  }
}
