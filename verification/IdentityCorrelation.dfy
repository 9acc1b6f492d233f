/**
 The identities of a set of built artifacts, and their correlation with the
 required targets.  The correlation derives the mapping a second time and gives
 up on any incoherence; `assert false` marks each of those exits as unreachable.
 */
module IdentityCorrelation {
  import opened Wrappers
  import opened ArtifactSelection

  datatype MetadataValue = Known(value: string) | MissingValue | Malformed | Unavailable

  datatype Identity = Identity(
    packageName: string, fullVersion: string, packageBase: MetadataValue, architecture: MetadataValue)

  datatype IndexedIdentity = IndexedIdentity(artifactIndex: nat, identity: Identity)

  datatype EntryResult = Entry(entry: IndexedIdentity) | InactiveSet | OutOfRange

  class ArtifactPackageIdentitySet {
    var entries: seq<IndexedIdentity>
    var isActive: bool

    /** Every entry carries its own position. */
    ghost predicate Valid()
      reads this
    {
      forall i | 0 <= i < |entries| :: entries[i].artifactIndex == i
    }

    predicate IsUsable()
      reads this
    {
      isActive && entries != []
    }

    constructor (identities: seq<Identity>)
      requires identities != []
      ensures Valid() && IsUsable() && |entries| == |identities|
      ensures forall i | 0 <= i < |identities| :: entries[i] == IndexedIdentity(i, identities[i])
    {
      entries, isActive := [], true;
      new;
      for index := 0 to |identities|
        invariant isActive && |entries| == index
        invariant forall i | 0 <= i < index :: entries[i] == IndexedIdentity(i, identities[i])
      {
        entries := entries + [IndexedIdentity(index, identities[index])];
      }
    }

    constructor Move(other: ArtifactPackageIdentitySet)
      requires other.Valid()
      modifies other
      ensures Valid() && other.Valid()
      ensures entries == old(other.entries) && isActive == old(other.isActive)
      ensures !other.IsUsable()
    {
      entries, isActive := other.entries, other.isActive;
      new;
      other.entries, other.isActive := [], false;
    }

    /** How many entries there are, as long as there is an active set to ask. */
    method Size() returns (size: Option<nat>)
      ensures size.Some? <==> IsUsable()
      ensures size.Some? ==> 0 < size.value == |entries|
    {
      if !isActive || entries == [] {
        return None;
      }
      size := Some(|entries|);
    }

    /** An active set hands out every entry below its size, and each entry carries
        the position it was asked for. */
    method EntryAt(position: nat) returns (r: EntryResult)
      requires Valid()
      ensures r.InactiveSet? <==> !IsUsable()
      ensures r.Entry? <==> IsUsable() && position < |entries|
      ensures r.Entry? ==> r.entry == entries[position] && r.entry.artifactIndex == position
    {
      if !isActive || entries == [] {
        return InactiveSet;
      }
      r := if position < |entries| then Entry(entries[position]) else OutOfRange;
    }
  }

  method MakeIdentitySet(identities: seq<Identity>) returns (r: Option<ArtifactPackageIdentitySet>)
    ensures r.None? <==> identities == []
    ensures r.Some? ==> fresh(r.value) && r.value.Valid() && r.value.IsUsable() && |r.value.entries| == |identities|
    ensures r.Some? ==> forall i | 0 <= i < |identities| :: r.value.entries[i] == IndexedIdentity(i, identities[i])
  {
    if identities == [] {
      return None;
    }
    var identitySet := new ArtifactPackageIdentitySet(identities);
    r := Some(identitySet);
  }

  // ----- what the correlation returns -----

  datatype CorrelatedSelected = CorrelatedSelected(artifactIndex: nat, identity: Identity, reason: Reason)
  datatype CorrelatedUnselected = CorrelatedUnselected(artifactIndex: nat, identity: Identity)

  /** A selection failure without the produced artifacts' indices. */
  datatype IdentityMatch = IdentityMatch(requiredIndex: nat, artifact: string, reason: Reason)
  datatype IdentityInconsistency = IdentityInconsistency(
    input: IdentityInput, requiredIndex: Option<nat>, identity: string)

  datatype ProjectedFailure = ProjectedFailure(
    packageBase: string,
    partialMatches: seq<IdentityMatch>,
    unselected: seq<string>,
    missing: seq<Missing>,
    duplicateProduced: seq<string>,
    duplicateRequired: seq<DuplicateRequired>,
    reasonConflicts: seq<ReasonConflict>,
    attributionMismatches: seq<AttributionMismatch>,
    inconsistencies: seq<IdentityInconsistency>,
    unknownReasons: seq<UnknownReason>)

  datatype CorrelationResult =
    | Correlated(packageBase: string, selected: seq<CorrelatedSelected>, unselected: seq<CorrelatedUnselected>)
    | Uncorrelated(failure: ProjectedFailure)
    | NoLongerActive

  function NamesOf(entries: seq<IndexedIdentity>): (names: seq<string>)
    ensures |names| == |entries|
  {
    seq(|entries|, i requires 0 <= i < |entries| => entries[i].identity.packageName)
  }

  /** The required index survives; a produced artifact's index does not. */
  function ProjectInconsistency(i: Inconsistency): IdentityInconsistency {
    var isRequired := i.input.RequiredPackageBase? || i.input.RequiredPackage?;
    IdentityInconsistency(i.input, if isRequired then i.index else None, i.identity)
  }

  function Projected(f: Failure): ProjectedFailure {
    ProjectedFailure(
      f.packageBase,
      seq(|f.partialMatches|, j requires 0 <= j < |f.partialMatches| =>
        IdentityMatch(f.partialMatches[j].requiredIndex, f.partialMatches[j].artifact, f.partialMatches[j].reason)),
      f.unselected, f.missing,
      seq(|f.duplicateProduced|, j requires 0 <= j < |f.duplicateProduced| => f.duplicateProduced[j].packageName),
      f.duplicateRequired, f.reasonConflicts, f.attributionMismatches,
      seq(|f.inconsistencies|, j requires 0 <= j < |f.inconsistencies| => ProjectInconsistency(f.inconsistencies[j])),
      f.unknownReasons)
  }

  ghost predicate HasNameOnlyAt(names: seq<string>, name: string, p: nat) {
    p < |names| && names[p] == name && forall q | 0 <= q < |names| && names[q] == name :: q == p
  }

  /** The position of the only entry of that name. */
  ghost function PositionOf(names: seq<string>, name: string): (p: nat)
    requires exists p :: HasNameOnlyAt(names, name, p)
    ensures HasNameOnlyAt(names, name, p)
  {
    var p :| HasNameOnlyAt(names, name, p); p
  }

  lemma SatisfiableHasPosition(request: Request, i: nat)
    requires IsSatisfiable(request) && i < |request.required|
    ensures exists p :: HasNameOnlyAt(request.produced, request.required[i].packageName, p)
  {
    assert request.required[i].packageName in request.produced;
    var p :| 0 <= p < |request.produced| && request.produced[p] == request.required[i].packageName;
    assert HasNameOnlyAt(request.produced, request.required[i].packageName, p);
  }

  ghost function SelectedEntries(request: Request, entries: seq<IndexedIdentity>, n: nat): seq<CorrelatedSelected>
    requires IsSatisfiable(request) && request.produced == NamesOf(entries) && n <= |request.required|
    decreases n
  {
    if n == 0 then []
    else
      SatisfiableHasPosition(request, n - 1);
      var entry := entries[PositionOf(request.produced, request.required[n - 1].packageName)];
      SelectedEntries(request, entries, n - 1)
      + [CorrelatedSelected(entry.artifactIndex, entry.identity, request.required[n - 1].reason)]
  }

  ghost function RestEntries(request: Request, entries: seq<IndexedIdentity>, n: nat): seq<CorrelatedUnselected>
    requires n <= |entries|
    decreases n
  {
    if n == 0 then []
    else
      var entry := entries[n - 1];
      RestEntries(request, entries, n - 1)
      + (if NamesTarget(request, entry.identity.packageName) then []
         else [CorrelatedUnselected(entry.artifactIndex, entry.identity)])
  }

  /** The result of a correlation over an active set. */
  ghost function CorrelationOf(
    packageBase: string, required: seq<Target>, entries: seq<IndexedIdentity>): CorrelationResult
  {
    var request := Request(packageBase, required, NamesOf(entries));
    SelectionSucceedsExactly(request);
    if SelectionResult(request).Failed? then Uncorrelated(Projected(SelectionResult(request).failure))
    else
      Correlated(packageBase, SelectedEntries(request, entries, |required|), RestEntries(request, entries, |entries|))
  }

  // ----- the incoherence checks -----

  predicate IndexIsCoherent(i: Inconsistency) {
    i.index.None? <==> i.input.PackageBase?
  }

  lemma {:induction false} RequiredIndicesCoherent(request: Request, n: nat)
    requires n <= |request.required|
    ensures forall i | i in RequiredInconsistencies(request, n) :: IndexIsCoherent(i)
  {
    if n > 0 {
      RequiredIndicesCoherent(request, n - 1);
    }
  }

  lemma {:induction false} ProducedIndicesCoherent(request: Request, n: nat)
    requires n <= |request.produced|
    ensures forall i | i in ProducedInconsistencies(request, n) :: IndexIsCoherent(i)
  {
    if n > 0 {
      ProducedIndicesCoherent(request, n - 1);
    }
  }

  /** Every inconsistency the selection reports carries an index exactly when its
      input is a list. */
  lemma DiagnosisIsCoherent(request: Request)
    ensures forall i | i in Diagnosis(request).inconsistencies :: IndexIsCoherent(i)
  {
    RequiredIndicesCoherent(request, |request.required|);
    ProducedIndicesCoherent(request, |request.produced|);
  }

  method ProjectSelectionFailure(failure: Failure) returns (projected: ProjectedFailure)
    requires forall i | i in failure.inconsistencies :: IndexIsCoherent(i)
    ensures projected == Projected(failure)
  {
    var matches: seq<IdentityMatch> := [];
    for j := 0 to |failure.partialMatches|
      invariant matches == Projected(failure).partialMatches[..j]
    {
      var m := failure.partialMatches[j];
      matches := matches + [IdentityMatch(m.requiredIndex, m.artifact, m.reason)];
    }
    var duplicates: seq<string> := [];
    for j := 0 to |failure.duplicateProduced|
      invariant duplicates == Projected(failure).duplicateProduced[..j]
    {
      duplicates := duplicates + [failure.duplicateProduced[j].packageName];
    }
    var inconsistencies: seq<IdentityInconsistency> := [];
    for j := 0 to |failure.inconsistencies|
      invariant inconsistencies == Projected(failure).inconsistencies[..j]
    {
      var inconsistency := failure.inconsistencies[j];
      var requiredIndex: Option<nat> := None;
      assert IndexIsCoherent(inconsistency);
      match inconsistency.input {
        case PackageBase =>
          if inconsistency.index.Some? { assert false; }
        case RequiredPackageBase | RequiredPackage =>
          if inconsistency.index.None? { assert false; }
          requiredIndex := inconsistency.index;
        case ProducedPackage =>
          if inconsistency.index.None? { assert false; }
      }
      inconsistencies := inconsistencies
        + [IdentityInconsistency(inconsistency.input, requiredIndex, inconsistency.identity)];
    }
    projected := ProjectedFailure(
      failure.packageBase, matches, failure.unselected, failure.missing, duplicates, failure.duplicateRequired,
      failure.reasonConflicts, failure.attributionMismatches, inconsistencies, failure.unknownReasons);
  }

  /** Asks for the size first, which is where an inactive set is refused. */
  method RequireIndexCoherence(identities: ArtifactPackageIdentitySet) returns (active: bool)
    requires identities.Valid()
    ensures active <==> identities.IsUsable()
  {
    var size := identities.Size();
    if size.None? {
      return false;
    }
    var count := size.value;
    if count == 0 { assert false; }
    var seen := seq(count, _ => false);
    for position := 0 to count
      invariant |seen| == count
      invariant forall i | position <= i < count :: !seen[i]
    {
      var r := identities.EntryAt(position);
      if !r.Entry? { assert false; }
      var index := r.entry.artifactIndex;
      if index >= count || seen[index] || index != position { assert false; }
      seen := seen[index := true];
    }
    active := true;
  }

  /** The names of all entries, asked for one by one. */
  method CollectNames(identities: ArtifactPackageIdentitySet) returns (names: seq<string>)
    requires identities.Valid() && identities.IsUsable()
    ensures names == NamesOf(identities.entries)
  {
    names := [];
    var size := identities.Size();
    for position := 0 to size.value
      invariant names == NamesOf(identities.entries)[..position]
    {
      var r := identities.EntryAt(position);
      if !r.Entry? { assert false; }
      names := names + [r.entry.identity.packageName];
    }
  }

  method FindUniquePosition(identities: ArtifactPackageIdentitySet, packageName: string) returns (position: nat)
    requires identities.Valid() && identities.IsUsable()
    requires exists p | 0 <= p < |identities.entries| :: HasNameOnlyAt(NamesOf(identities.entries), packageName, p)
    ensures HasNameOnlyAt(NamesOf(identities.entries), packageName, position)
  {
    ghost var names := NamesOf(identities.entries);
    ghost var only :| 0 <= only < |names| && HasNameOnlyAt(names, packageName, only);
    var size := identities.Size();
    position := size.value;
    var count := 0;
    for p := 0 to size.value
      invariant count == if only < p then 1 else 0
      invariant only < p ==> position == only
    {
      var r := identities.EntryAt(p);
      if !r.Entry? { assert false; }
      assert names[p] == r.entry.identity.packageName;
      if r.entry.identity.packageName != packageName {
        continue;
      }
      position := p;
      count := count + 1;
    }
    if count != 1 { assert false; }
  }

  lemma {:induction false} RestIsPrefix(request: Request, m: nat, n: nat)
    requires m <= n <= |request.produced|
    ensures RestUpTo(request, m) <= RestUpTo(request, n)
    decreases n
  {
    if m < n {
      RestIsPrefix(request, m, n - 1);
    }
  }

  ghost predicate IsTaken(request: Request, n: nat, position: nat)
    requires n <= |request.required|
  {
    position < |request.produced| &&
    exists i | 0 <= i < n :: request.required[i].packageName == request.produced[position]
  }

  /** The selected half: one entry for each required target, in required order. */
  method CorrelateSelected(request: Request, identities: ArtifactPackageIdentitySet, selected: seq<Selected>)
    returns (positions: seq<bool>, correlated: seq<CorrelatedSelected>)
    requires identities.Valid() && identities.IsUsable()
    requires request.produced == NamesOf(identities.entries) && IsSatisfiable(request)
    requires |selected| == |request.required|
    requires forall i | 0 <= i < |selected| ::
      selected[i] == Selected(request.required[i].packageName, request.required[i].reason)
    ensures |positions| == |identities.entries|
    ensures forall p | 0 <= p < |positions| :: positions[p] == NamesTarget(request, request.produced[p])
    ensures correlated == SelectedEntries(request, identities.entries, |request.required|)
    ensures |correlated| == |request.required|
  {
    var size := identities.Size();
    positions := seq(size.value, _ => false);
    correlated := [];
    for i := 0 to |selected|
      invariant CorrelatedUpTo(request, identities.entries, i, positions, correlated)
    {
      var target := request.required[i];
      if selected[i].artifact != target.packageName || selected[i].reason != target.reason { assert false; }
      SatisfiableHasPosition(request, i);
      var position := FindUniquePosition(identities, selected[i].artifact);
      CorrelateNext(request, identities.entries, i, positions, correlated, position);
      if positions[position] { assert false; }
      positions := positions[position := true];
      var r := identities.EntryAt(position);
      if !r.Entry? { assert false; }
      correlated := correlated + [CorrelatedSelected(r.entry.artifactIndex, r.entry.identity, selected[i].reason)];
    }
  }

  /** The first `i` targets have their entries, and exactly those are taken. */
  ghost predicate CorrelatedUpTo(
    request: Request, entries: seq<IndexedIdentity>, i: nat, positions: seq<bool>,
    correlated: seq<CorrelatedSelected>)
    requires IsSatisfiable(request) && request.produced == NamesOf(entries)
  {
    && i <= |request.required| && |positions| == |entries| && |correlated| == i
    && (forall p | 0 <= p < |positions| :: positions[p] == IsTaken(request, i, p))
    && correlated == SelectedEntries(request, entries, i)
  }

  lemma CorrelateNext(
    request: Request, entries: seq<IndexedIdentity>, i: nat, positions: seq<bool>,
    correlated: seq<CorrelatedSelected>, position: nat)
    requires IsSatisfiable(request) && request.produced == NamesOf(entries) && i < |request.required|
    requires CorrelatedUpTo(request, entries, i, positions, correlated)
    requires HasNameOnlyAt(request.produced, request.required[i].packageName, position)
    ensures !positions[position]
    ensures CorrelatedUpTo(
      request, entries, i + 1, positions[position := true],
      correlated + [CorrelatedSelected(
        entries[position].artifactIndex, entries[position].identity, request.required[i].reason)])
  {
    SatisfiableHasPosition(request, i);
    assert position == PositionOf(request.produced, request.required[i].packageName);
  }

  /** The other half: the entries no target names, in aggregate order. */
  method CorrelateUnselected(
    request: Request, identities: ArtifactPackageIdentitySet, positions: seq<bool>, unselected: seq<string>)
    returns (correlated: seq<CorrelatedUnselected>)
    requires identities.Valid() && identities.IsUsable() && request.produced == NamesOf(identities.entries)
    requires |positions| == |identities.entries|
    requires forall p | 0 <= p < |positions| :: positions[p] == NamesTarget(request, request.produced[p])
    requires unselected == RestUpTo(request, |request.produced|)
    ensures correlated == RestEntries(request, identities.entries, |identities.entries|)
    ensures |correlated| == |unselected|
  {
    correlated := [];
    var next := 0;
    var size := identities.Size();
    for position := 0 to size.value
      invariant next == |RestUpTo(request, position)| == |correlated|
      invariant correlated == RestEntries(request, identities.entries, position)
    {
      if positions[position] {
        continue;
      }
      RestIsPrefix(request, position + 1, |request.produced|);
      if next >= |unselected| { assert false; }
      var r := identities.EntryAt(position);
      if !r.Entry? { assert false; }
      var entry := r.entry;
      if unselected[next] != entry.identity.packageName { assert false; }
      correlated := correlated + [CorrelatedUnselected(entry.artifactIndex, entry.identity)];
      next := next + 1;
    }
    if next != |unselected| { assert false; }
  }

  lemma NamesAddUp(request: Request)
    requires IsSatisfiable(request)
    ensures |request.required| + |RestUpTo(request, |request.produced|)| == |request.produced|
  {
    SuccessSelectsEverything(request);
    assert |multiset(request.produced)| == |multiset(RequiredNames(request))|
      + |multiset(RestUpTo(request, |request.produced|))|;
  }

  method CorrelatePackageBaseArtifactIdentities(
    packageBase: string, required: seq<Target>, identities: ArtifactPackageIdentitySet)
    returns (result: CorrelationResult)
    requires identities.Valid()
    ensures result == if identities.IsUsable() then CorrelationOf(packageBase, required, identities.entries)
                      else NoLongerActive
  {
    var active := RequireIndexCoherence(identities);
    if !active {
      return NoLongerActive;
    }
    var produced := CollectNames(identities);
    var request := Request(packageBase, required, produced);
    var selection := SelectPackageBaseArtifacts(request);
    SelectionSucceedsExactly(request);
    if selection.Failed? {
      DiagnosisIsCoherent(request);
      var projected := ProjectSelectionFailure(selection.failure);
      return Uncorrelated(projected);
    }
    SuccessSelectsEverything(request);
    NamesAddUp(request);
    if selection.packageBase != packageBase || |selection.selected| != |required| { assert false; }
    var positions, selected := CorrelateSelected(request, identities, selection.selected);
    var size := identities.Size();
    if |selection.unselected| != size.value - |selected| { assert false; }
    var unselected := CorrelateUnselected(request, identities, positions, selection.unselected);
    if |selected| + |unselected| != size.value { assert false; }
    result := Correlated(packageBase, selected, unselected);
  }

  // ----- the two halves partition the artifacts -----

  ghost function SelectedIndices(selected: seq<CorrelatedSelected>): seq<nat> {
    seq(|selected|, i requires 0 <= i < |selected| => selected[i].artifactIndex)
  }

  ghost function UnselectedIndices(unselected: seq<CorrelatedUnselected>): seq<nat> {
    seq(|unselected|, i requires 0 <= i < |unselected| => unselected[i].artifactIndex)
  }

  /** One entry for every target, in their order, each from its place. */
  ghost predicate AreSelected(
    required: seq<Target>, entries: seq<IndexedIdentity>, selected: seq<CorrelatedSelected>)
  {
    |selected| == |required|
    && forall i | 0 <= i < |required| ::
         && selected[i].identity.packageName == required[i].packageName && selected[i].reason == required[i].reason
         && selected[i].artifactIndex < |entries|
         && entries[selected[i].artifactIndex].identity == selected[i].identity
  }

  lemma {:induction false} SelectedEntriesExact(request: Request, entries: seq<IndexedIdentity>, n: nat)
    requires IsSatisfiable(request) && request.produced == NamesOf(entries) && n <= |request.required|
    requires forall p | 0 <= p < |entries| :: entries[p].artifactIndex == p
    ensures AreSelected(request.required[..n], entries, SelectedEntries(request, entries, n))
  {
    if n > 0 {
      SelectedEntriesExact(request, entries, n - 1);
      var most := request.required[..n - 1];
      assert request.required[..n] == most + [request.required[n - 1]];
      SatisfiableHasPosition(request, n - 1);
    }
  }

  lemma {:induction false} RestEntriesComeFrom(request: Request, entries: seq<IndexedIdentity>, n: nat)
    requires n <= |entries| && forall p | 0 <= p < |entries| :: entries[p].artifactIndex == p
    ensures forall i | 0 <= i < |RestEntries(request, entries, n)| :: var c := RestEntries(request, entries, n)[i];
      c.artifactIndex < n && entries[c.artifactIndex].identity == c.identity
  {
    if n > 0 {
      RestEntriesComeFrom(request, entries, n - 1);
    }
  }

  lemma RestIndicesGrow(request: Request, entries: seq<IndexedIdentity>, n: nat)
    requires 0 < n <= |entries| && entries[n - 1].artifactIndex == n - 1
    ensures UnselectedIndices(RestEntries(request, entries, n)) ==
      UnselectedIndices(RestEntries(request, entries, n - 1))
      + (if NamesTarget(request, entries[n - 1].identity.packageName) then [] else [n - 1])
  {
  }

  lemma {:induction false} RestIndicesExact(request: Request, entries: seq<IndexedIdentity>, n: nat)
    requires n <= |entries| && forall p | 0 <= p < |entries| :: entries[p].artifactIndex == p
    ensures Ascending(UnselectedIndices(RestEntries(request, entries, n)))
    ensures forall p: nat :: p in UnselectedIndices(RestEntries(request, entries, n)) <==>
      p < n && !NamesTarget(request, entries[p].identity.packageName)
  {
    if n > 0 {
      RestIndicesExact(request, entries, n - 1);
      RestIndicesGrow(request, entries, n);
      AscendingMore(UnselectedIndices(RestEntries(request, entries, n - 1)), n - 1);
    }
  }

  lemma SelectedIndicesExact(request: Request, entries: seq<IndexedIdentity>, selected: seq<CorrelatedSelected>)
    requires IsSatisfiable(request) && request.produced == NamesOf(entries)
    requires AreSelected(request.required, entries, selected)
    ensures forall p: nat :: p in SelectedIndices(selected) <==>
      p < |entries| && NamesTarget(request, entries[p].identity.packageName)
  {
    forall p: nat | p < |entries| && NamesTarget(request, entries[p].identity.packageName)
      ensures p in SelectedIndices(selected)
    {
      var i :| 0 <= i < |request.required| && request.required[i].packageName == request.produced[p];
      var q := selected[i].artifactIndex;
      assert request.produced[q] == request.produced[p];
      assert SelectedIndices(selected)[i] == q;
    }
    forall p: nat | p in SelectedIndices(selected)
      ensures p < |entries| && NamesTarget(request, entries[p].identity.packageName)
    {
      var i :| 0 <= i < |selected| && SelectedIndices(selected)[i] == p;
      assert request.required[i].packageName == entries[p].identity.packageName;
    }
  }

  lemma SelectedDiffer(request: Request, entries: seq<IndexedIdentity>, selected: seq<CorrelatedSelected>)
    requires IsSatisfiable(request) && request.produced == NamesOf(entries)
    requires AreSelected(request.required, entries, selected)
    ensures forall i, j | 0 <= i < j < |selected| :: selected[i].artifactIndex != selected[j].artifactIndex
  {
  }

  lemma SelectedFollowTargets(packageBase: string, required: seq<Target>, entries: seq<IndexedIdentity>)
    requires forall p | 0 <= p < |entries| :: entries[p].artifactIndex == p
    requires CorrelationOf(packageBase, required, entries).Correlated?
    ensures var selected := CorrelationOf(packageBase, required, entries).selected;
      && AreSelected(required, entries, selected)
      && (forall i, j | 0 <= i < j < |required| :: selected[i].artifactIndex != selected[j].artifactIndex)
  {
    var request := Request(packageBase, required, NamesOf(entries));
    SelectionSucceedsExactly(request);
    assert request.required[..|required|] == required;
    SelectedEntriesExact(request, entries, |required|);
    SelectedDiffer(request, entries, SelectedEntries(request, entries, |required|));
  }

  lemma IndicesArePartitioned(packageBase: string, required: seq<Target>, entries: seq<IndexedIdentity>)
    requires forall p | 0 <= p < |entries| :: entries[p].artifactIndex == p
    requires CorrelationOf(packageBase, required, entries).Correlated?
    ensures var r := CorrelationOf(packageBase, required, entries);
      && Ascending(UnselectedIndices(r.unselected))
      && (forall p: nat :: p in SelectedIndices(r.selected) || p in UnselectedIndices(r.unselected) <==> p < |entries|)
      && (forall p: nat :: !(p in SelectedIndices(r.selected) && p in UnselectedIndices(r.unselected)))
  {
    var request := Request(packageBase, required, NamesOf(entries));
    SelectionSucceedsExactly(request);
    SelectedFollowTargets(packageBase, required, entries);
    SelectedIndicesExact(request, entries, SelectedEntries(request, entries, |required|));
    RestIndicesExact(request, entries, |entries|);
  }

  /** Every artifact index 0..n-1 is selected once or unselected once, never both.
      The selected entries follow the required order, the others their own. */
  lemma CorrelationPartitions(packageBase: string, required: seq<Target>, entries: seq<IndexedIdentity>)
    requires forall p | 0 <= p < |entries| :: entries[p].artifactIndex == p
    requires CorrelationOf(packageBase, required, entries).Correlated?
    ensures var r := CorrelationOf(packageBase, required, entries);
      && |r.selected| == |required|
      && (forall i | 0 <= i < |required| ::
            && r.selected[i].identity.packageName == required[i].packageName
            && r.selected[i].reason == required[i].reason
            && r.selected[i].artifactIndex < |entries|
            && entries[r.selected[i].artifactIndex].identity == r.selected[i].identity)
      && (forall i, j | 0 <= i < j < |required| :: r.selected[i].artifactIndex != r.selected[j].artifactIndex)
      && Ascending(UnselectedIndices(r.unselected))
      && (forall p: nat :: p in SelectedIndices(r.selected) || p in UnselectedIndices(r.unselected) <==> p < |entries|)
      && (forall p: nat :: !(p in SelectedIndices(r.selected) && p in UnselectedIndices(r.unselected)))
  {
    SelectedFollowTargets(packageBase, required, entries);
    IndicesArePartitioned(packageBase, required, entries);
  }

  /** From a list of identities to their correlation: every index in the result is
      the place of that identity in the list, and an empty list makes no set. */
  method CorrelateIdentities(packageBase: string, required: seq<Target>, identities: seq<Identity>)
    returns (result: Option<CorrelationResult>)
    ensures result.None? <==> identities == []
    ensures result.Some? ==> !result.value.NoLongerActive?
    ensures result.Some? && result.value.Correlated? ==>
      && (forall c | c in result.value.selected ::
            c.artifactIndex < |identities| && identities[c.artifactIndex] == c.identity)
      && (forall c | c in result.value.unselected ::
            c.artifactIndex < |identities| && identities[c.artifactIndex] == c.identity)
      && |result.value.selected| == |required|
      && |result.value.selected| + |result.value.unselected| == |identities|
  {
    var made := MakeIdentitySet(identities);
    if made.None? {
      return None;
    }
    var r := CorrelatePackageBaseArtifactIdentities(packageBase, required, made.value);
    CorrelatedAreGiven(packageBase, required, identities, made.value.entries);
    result := Some(r);
  }

  lemma CorrelatedAreGiven(
    packageBase: string, required: seq<Target>, identities: seq<Identity>, entries: seq<IndexedIdentity>)
    requires |entries| == |identities|
    requires forall i | 0 <= i < |identities| :: entries[i] == IndexedIdentity(i, identities[i])
    ensures var r := CorrelationOf(packageBase, required, entries);
      r.Correlated? ==>
        && (forall c | c in r.selected :: c.artifactIndex < |identities| && identities[c.artifactIndex] == c.identity)
        && (forall c | c in r.unselected :: c.artifactIndex < |identities| && identities[c.artifactIndex] == c.identity)
        && |r.selected| == |required| && |r.selected| + |r.unselected| == |identities|
  {
    var r := CorrelationOf(packageBase, required, entries);
    if r.Correlated? {
      var request := Request(packageBase, required, NamesOf(entries));
      CorrelationPartitions(packageBase, required, entries);
      RestEntriesComeFrom(request, entries, |entries|);
      SelectionSucceedsExactly(request);
      NamesAddUp(request);
      RestEntriesCount(request, entries, |entries|);
    }
  }

  lemma {:induction false} RestEntriesCount(request: Request, entries: seq<IndexedIdentity>, n: nat)
    requires request.produced == NamesOf(entries) && n <= |entries|
    ensures |RestEntries(request, entries, n)| == |RestUpTo(request, n)|
  {
    if n > 0 {
      RestEntriesCount(request, entries, n - 1);
    }
  }

  /** Moving a set hands its correlation over: the new set gives what the old one
      would have given, and the old one refuses from then on. */
  method CorrelateAfterMove(packageBase: string, required: seq<Target>, identities: ArtifactPackageIdentitySet)
    returns (moved: CorrelationResult, left: CorrelationResult)
    requires identities.Valid()
    modifies identities
    ensures left == NoLongerActive
    ensures moved == if old(identities.IsUsable())
      then CorrelationOf(packageBase, required, old(identities.entries)) else NoLongerActive
  {
    var next := new ArtifactPackageIdentitySet.Move(identities);
    moved := CorrelatePackageBaseArtifactIdentities(packageBase, required, next);
    left := CorrelatePackageBaseArtifactIdentities(packageBase, required, identities);
  }
}
