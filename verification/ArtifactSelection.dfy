/**
 Selection of the artifacts of one package base: required targets against
 produced package names, with a diagnostic for every way it can go wrong.
 */
module ArtifactSelection {
  import opened Wrappers
  import opened PackageIdentifier

  /** A desired install reason; the source's enumeration may hold other values. */
  datatype Reason = Explicit | Dependency | Unknown(code: int)

  datatype Target = Target(packageBase: string, packageName: string, reason: Reason)

  datatype Request = Request(packageBase: string, required: seq<Target>, produced: seq<string>)

  datatype Match = Match(requiredIndex: nat, producedIndex: nat, artifact: string, reason: Reason)
  datatype Missing = Missing(requiredIndex: nat, target: Target)
  datatype DuplicateProduced = DuplicateProduced(first: nat, duplicate: nat, packageName: string)
  datatype DuplicateRequired = DuplicateRequired(packageName: string, reason: Reason, indices: seq<nat>)
  datatype Occurrence = Occurrence(requiredIndex: nat, reason: Reason)
  datatype ReasonConflict = ReasonConflict(packageName: string, occurrences: seq<Occurrence>)
  datatype AttributionMismatch = AttributionMismatch(
    requiredIndex: nat, expectedBase: string, actualBase: string, packageName: string)
  datatype IdentityInput = PackageBase | RequiredPackageBase | RequiredPackage | ProducedPackage
  datatype Inconsistency = Inconsistency(input: IdentityInput, index: Option<nat>, identity: string)
  datatype UnknownReason = UnknownReason(requiredIndex: nat, target: Target)

  datatype Failure = Failure(
    packageBase: string,
    partialMatches: seq<Match>,
    unselected: seq<string>,
    missing: seq<Missing>,
    duplicateProduced: seq<DuplicateProduced>,
    duplicateRequired: seq<DuplicateRequired>,
    reasonConflicts: seq<ReasonConflict>,
    attributionMismatches: seq<AttributionMismatch>,
    inconsistencies: seq<Inconsistency>,
    unknownReasons: seq<UnknownReason>)

  datatype Selected = Selected(artifact: string, reason: Reason)

  datatype Result =
    | Success(packageBase: string, selected: seq<Selected>, unselected: seq<string>)
    | Failed(failure: Failure)

  predicate IsKnownReason(reason: Reason) {
    !reason.Unknown?
  }

  predicate HasFailures(f: Failure) {
    || f.missing != [] || f.duplicateProduced != [] || f.duplicateRequired != [] || f.reasonConflicts != []
    || f.attributionMismatches != [] || f.inconsistencies != [] || f.unknownReasons != []
  }

  // ----- what each required target and each artifact is -----

  predicate IsConsistent(request: Request, t: Target) {
    && IsValidPackageName(t.packageBase) && t.packageBase == request.packageBase
    && IsValidPackageName(t.packageName) && IsKnownReason(t.reason)
  }

  predicate ConsistentAt(request: Request, i: int) {
    0 <= i < |request.required| && IsConsistent(request, request.required[i])
  }

  predicate SameName(request: Request, i: nat, j: int) {
    && i < |request.required| && ConsistentAt(request, j)
    && request.required[j].packageName == request.required[i].packageName
  }

  /** The consistent targets below `n` that name the same package as target `i`. */
  ghost function GroupUpTo(request: Request, i: nat, n: nat): (r: seq<nat>)
    ensures forall j | 0 <= j < |r| :: r[j] < n && SameName(request, i, r[j])
  {
    if n == 0 then [] else GroupUpTo(request, i, n - 1) + (if SameName(request, i, n - 1) then [n - 1] else [])
  }

  ghost function Group(request: Request, i: nat): (r: seq<nat>)
    ensures forall j | 0 <= j < |r| :: SameName(request, i, r[j])
  {
    GroupUpTo(request, i, |request.required|)
  }

  /** Target `i` is the first consistent one that names its package. */
  ghost predicate Leads(request: Request, i: nat) {
    ConsistentAt(request, i) && forall j | 0 <= j < i :: !SameName(request, i, j)
  }

  ghost predicate ReasonsAgree(request: Request, i: nat) {
    i < |request.required| && forall j | 0 <= j < |request.required| && SameName(request, i, j) ::
      request.required[j].reason == request.required[i].reason
  }

  ghost predicate IsAlone(request: Request, i: nat) {
    ConsistentAt(request, i) && forall j | 0 <= j < |request.required| && SameName(request, i, j) :: j == i
  }

  ghost predicate LeadsDuplicates(request: Request, i: nat) {
    Leads(request, i) && !IsAlone(request, i) && ReasonsAgree(request, i)
  }

  ghost predicate LeadsConflict(request: Request, i: nat) {
    Leads(request, i) && !IsAlone(request, i) && !ReasonsAgree(request, i)
  }

  ghost predicate IsUniqueArtifact(request: Request, i: nat) {
    && i < |request.produced| && IsValidPackageName(request.produced[i])
    && forall j | 0 <= j < |request.produced| && j != i :: request.produced[j] != request.produced[i]
  }

  /** Artifact `i` is the smallest index that carries its name. */
  ghost predicate IsFirstArtifact(request: Request, i: nat) {
    i < |request.produced| && forall j | 0 <= j < i :: request.produced[j] != request.produced[i]
  }

  ghost predicate RepeatsArtifact(request: Request, i: nat) {
    i < |request.produced| && IsValidPackageName(request.produced[i]) && !IsFirstArtifact(request, i)
  }

  ghost predicate IsSelectable(request: Request, i: nat) {
    IsValidPackageName(request.packageBase) && IsAlone(request, i)
  }

  ghost predicate IsMissing(request: Request, i: nat) {
    IsSelectable(request, i) && request.required[i].packageName !in request.produced
  }

  /** Target `i` is met by artifact `a` and by no other. */
  ghost predicate Matches(request: Request, i: nat, a: nat) {
    && IsSelectable(request, i) && IsUniqueArtifact(request, a)
    && request.produced[a] == request.required[i].packageName
  }

  ghost predicate IsMatched(request: Request, i: nat) {
    exists a :: Matches(request, i, a)
  }

  ghost predicate IsSelectedArtifact(request: Request, a: nat) {
    exists i :: Matches(request, i, a)
  }

  // ----- the diagnostics, in the order they are reported -----

  ghost function TargetInconsistencies(t: Target, i: nat): seq<Inconsistency> {
    (if IsValidPackageName(t.packageBase) then [] else [Inconsistency(RequiredPackageBase, Some(i), t.packageBase)])
    + (if IsValidPackageName(t.packageName) then [] else [Inconsistency(RequiredPackage, Some(i), t.packageName)])
  }

  ghost function RequiredInconsistencies(request: Request, n: nat): seq<Inconsistency>
    requires n <= |request.required|
  {
    if n == 0 then []
    else
      RequiredInconsistencies(request, n - 1) + TargetInconsistencies(request.required[n - 1], n - 1)
  }

  ghost function ProducedInconsistencies(request: Request, n: nat): seq<Inconsistency>
    requires n <= |request.produced|
  {
    if n == 0 then []
    else
      ProducedInconsistencies(request, n - 1) + (if IsValidPackageName(request.produced[n - 1]) then []
        else [Inconsistency(ProducedPackage, Some(n - 1), request.produced[n - 1])])
  }

  ghost function BaseInconsistencies(request: Request): seq<Inconsistency> {
    if IsValidPackageName(request.packageBase) then [] else [Inconsistency(PackageBase, None, request.packageBase)]
  }

  ghost function MismatchesUpTo(request: Request, n: nat): seq<AttributionMismatch>
    requires n <= |request.required|
  {
    if n == 0 then []
    else
      var t := request.required[n - 1];
      MismatchesUpTo(request, n - 1) + (if t.packageBase == request.packageBase then []
        else [AttributionMismatch(n - 1, request.packageBase, t.packageBase, t.packageName)])
  }

  ghost function UnknownReasonsUpTo(request: Request, n: nat): seq<UnknownReason>
    requires n <= |request.required|
  {
    if n == 0 then []
    else
      var t := request.required[n - 1];
      UnknownReasonsUpTo(request, n - 1) + (if IsKnownReason(t.reason) then [] else [UnknownReason(n - 1, t)])
  }

  /** The record a group of agreeing duplicates leaves at its leader. */
  ghost function DuplicateAt(request: Request, i: nat): seq<DuplicateRequired>
    requires i < |request.required|
  {
    var t := request.required[i];
    if LeadsDuplicates(request, i) then [DuplicateRequired(t.packageName, t.reason, Group(request, i))] else []
  }

  ghost function DuplicateRequiredUpTo(request: Request, n: nat): seq<DuplicateRequired>
    requires n <= |request.required|
  {
    if n == 0 then [] else DuplicateRequiredUpTo(request, n - 1) + DuplicateAt(request, n - 1)
  }

  ghost function Occurrences(request: Request, indices: seq<nat>): seq<Occurrence>
    requires forall j | 0 <= j < |indices| :: indices[j] < |request.required|
  {
    seq(|indices|, j requires 0 <= j < |indices| => Occurrence(indices[j], request.required[indices[j]].reason))
  }

  /** The record a group of conflicting reasons leaves at its leader. */
  ghost function ConflictAt(request: Request, i: nat): seq<ReasonConflict>
    requires i < |request.required|
  {
    var t := request.required[i];
    if LeadsConflict(request, i) then [ReasonConflict(t.packageName, Occurrences(request, Group(request, i)))] else []
  }

  ghost function ReasonConflictsUpTo(request: Request, n: nat): seq<ReasonConflict>
    requires n <= |request.required|
  {
    if n == 0 then [] else ReasonConflictsUpTo(request, n - 1) + ConflictAt(request, n - 1)
  }

  /** The smallest index that carries the name of artifact `i`. */
  ghost function FirstArtifact(request: Request, i: nat): (r: nat)
    requires i < |request.produced|
    ensures r <= i && request.produced[r] == request.produced[i] && IsFirstArtifact(request, r)
  {
    FirstArtifactFrom(request, i, 0)
  }

  ghost function FirstArtifactFrom(request: Request, i: nat, from: nat): (r: nat)
    requires from <= i < |request.produced|
    requires forall j | 0 <= j < from :: request.produced[j] != request.produced[i]
    ensures r <= i && request.produced[r] == request.produced[i] && IsFirstArtifact(request, r)
    decreases i - from
  {
    if request.produced[from] == request.produced[i] then from else FirstArtifactFrom(request, i, from + 1)
  }

  ghost function DuplicateProducedUpTo(request: Request, n: nat): seq<DuplicateProduced>
    requires n <= |request.produced|
  {
    if n == 0 then []
    else
      DuplicateProducedUpTo(request, n - 1) + (if RepeatsArtifact(request, n - 1)
        then [DuplicateProduced(FirstArtifact(request, n - 1), n - 1, request.produced[n - 1])]
        else [])
  }

  ghost function MissingUpTo(request: Request, n: nat): seq<Missing>
    requires n <= |request.required|
  {
    if n == 0 then []
    else
      MissingUpTo(request, n - 1)
      + (if IsMissing(request, n - 1) then [Missing(n - 1, request.required[n - 1])] else [])
  }

  ghost function MatchedArtifact(request: Request, i: nat): (a: nat)
    requires IsMatched(request, i)
    ensures Matches(request, i, a)
  {
    var a :| Matches(request, i, a); a
  }

  ghost function MatchesUpTo(request: Request, n: nat): seq<Match>
    requires n <= |request.required|
  {
    if n == 0 then []
    else
      var t := request.required[n - 1];
      MatchesUpTo(request, n - 1) + (if IsMatched(request, n - 1)
        then [Match(n - 1, MatchedArtifact(request, n - 1), t.packageName, t.reason)]
        else [])
  }

  ghost function UnselectedUpTo(request: Request, n: nat): seq<string>
    requires n <= |request.produced|
  {
    if n == 0 then []
    else UnselectedUpTo(request, n - 1) + (if IsSelectedArtifact(request, n - 1) then [] else [request.produced[n - 1]])
  }

  /** Everything the selection has to report about a request. */
  ghost function Diagnosis(request: Request): Failure {
    var r, p := |request.required|, |request.produced|;
    Failure(
      request.packageBase,
      MatchesUpTo(request, r),
      UnselectedUpTo(request, p),
      MissingUpTo(request, r),
      DuplicateProducedUpTo(request, p),
      DuplicateRequiredUpTo(request, r),
      ReasonConflictsUpTo(request, r),
      MismatchesUpTo(request, r),
      BaseInconsistencies(request) + RequiredInconsistencies(request, r) + ProducedInconsistencies(request, p),
      UnknownReasonsUpTo(request, r))
  }

  ghost function SelectedOf(matches: seq<Match>): seq<Selected> {
    seq(|matches|, j requires 0 <= j < |matches| => Selected(matches[j].artifact, matches[j].reason))
  }

  ghost function SelectionResult(request: Request): Result {
    var d := Diagnosis(request);
    if HasFailures(d) then Failed(d) else Success(d.packageBase, SelectedOf(d.partialMatches), d.unselected)
  }

  // ----- the passes -----

  method CheckTargets(request: Request)
    returns (consistent: seq<bool>, inconsistencies: seq<Inconsistency>, mismatches: seq<AttributionMismatch>,
      unknown: seq<UnknownReason>)
    ensures |consistent| == |request.required|
    ensures forall i | 0 <= i < |consistent| :: consistent[i] == ConsistentAt(request, i)
    ensures inconsistencies == RequiredInconsistencies(request, |request.required|)
    ensures mismatches == MismatchesUpTo(request, |request.required|)
    ensures unknown == UnknownReasonsUpTo(request, |request.required|)
  {
    consistent := seq(|request.required|, _ => true);
    inconsistencies, mismatches, unknown := [], [], [];
    for i := 0 to |request.required|
      invariant |consistent| == |request.required|
      invariant forall j | 0 <= j < i :: consistent[j] == ConsistentAt(request, j)
      invariant forall j | i <= j < |consistent| :: consistent[j]
      invariant inconsistencies == RequiredInconsistencies(request, i)
      invariant mismatches == MismatchesUpTo(request, i)
      invariant unknown == UnknownReasonsUpTo(request, i)
    {
      var target := request.required[i];
      if !IsValidPackageName(target.packageBase) {
        consistent := consistent[i := false];
        inconsistencies := inconsistencies + [Inconsistency(RequiredPackageBase, Some(i), target.packageBase)];
      }
      if target.packageBase != request.packageBase {
        consistent := consistent[i := false];
        mismatches := mismatches
          + [AttributionMismatch(i, request.packageBase, target.packageBase, target.packageName)];
      }
      if !IsValidPackageName(target.packageName) {
        consistent := consistent[i := false];
        inconsistencies := inconsistencies + [Inconsistency(RequiredPackage, Some(i), target.packageName)];
      }
      if !IsKnownReason(target.reason) {
        consistent := consistent[i := false];
        unknown := unknown + [UnknownReason(i, target)];
      }
    }
  }

  predicate Ascending(r: seq<nat>) {
    forall a, b :: 0 <= a < b < |r| ==> r[a] < r[b]
  }

  /** Target `j` is consistent and its name occurs among the targets below `i`. */
  ghost predicate IsSeen(request: Request, j: nat, i: nat) {
    ConsistentAt(request, j) && exists k | 0 <= k < i :: SameName(request, j, k)
  }

  lemma SeenNext(request: Request, j: nat, i: nat)
    requires i < |request.required|
    ensures IsSeen(request, j, i + 1) ==
      (IsSeen(request, j, i) || (Leads(request, i) && SameName(request, i, j)))
  {
    if IsSeen(request, j, i + 1) && !IsSeen(request, j, i) {
      assert SameName(request, j, i);
      if !Leads(request, i) {
        var k :| 0 <= k < i && SameName(request, i, k);
        assert SameName(request, j, k);
      }
    }
    if Leads(request, i) && SameName(request, i, j) {
      assert SameName(request, j, i);
    }
  }

  /** Target `j` after the groups led by targets below `i` have been handled. */
  ghost predicate StillSelectable(request: Request, j: nat, i: nat) {
    ConsistentAt(request, j) && (IsSeen(request, j, i) ==> IsAlone(request, j))
  }

  lemma SelectableNext(request: Request, i: nat)
    requires i < |request.required|
    ensures !Leads(request, i) <==> !ConsistentAt(request, i) || IsSeen(request, i, i)
    ensures !Leads(request, i) ==> forall j: nat :: IsSeen(request, j, i + 1) == IsSeen(request, j, i)
    ensures Leads(request, i) ==> forall j: nat ::
      StillSelectable(request, j, i + 1) ==
        (StillSelectable(request, j, i) && (SameName(request, i, j) ==> |Group(request, i)| == 1))
  {
    forall j: nat {
      SeenNext(request, j, i);
    }
    if Leads(request, i) {
      GroupSize(request, i);
      forall j: nat | SameName(request, i, j) ensures IsSeen(request, j, i + 1) {
        SeenNext(request, j, i);
      }
    }
  }

  lemma {:induction false} EmptyBefore(request: Request, i: nat, n: nat)
    requires forall j | 0 <= j < n :: !SameName(request, i, j)
    ensures GroupUpTo(request, i, n) == []
  {
    if n > 0 {
      EmptyBefore(request, i, n - 1);
    }
  }

  lemma AscendingMore(r: seq<nat>, last: nat)
    requires Ascending(r) && forall j | j in r :: j < last
    ensures Ascending(r + [last])
  {
    forall a | 0 <= a < |r| ensures r[a] < last {
      assert r[a] in r;
    }
  }

  /** The group holds exactly the targets of that name, in ascending order. */
  lemma {:induction false} GroupExact(request: Request, i: nat, n: nat)
    ensures forall j: nat :: j in GroupUpTo(request, i, n) <==> j < n && SameName(request, i, j)
    ensures Ascending(GroupUpTo(request, i, n))
  {
    if n > 0 {
      GroupExact(request, i, n - 1);
      AscendingMore(GroupUpTo(request, i, n - 1), n - 1);
    }
  }

  lemma GroupSize(request: Request, i: nat)
    requires Leads(request, i)
    ensures Group(request, i) != [] && Group(request, i)[0] == i
    ensures forall j: nat | SameName(request, i, j) :: IsAlone(request, j) <==> |Group(request, i)| == 1
  {
    var r := Group(request, i);
    GroupExact(request, i, |request.required|);
    assert i in r;
    var at :| 0 <= at < |r| && r[at] == i;
    assert r[0] in r;
    if |r| > 1 {
      assert r[1] in r && SameName(request, i, r[1]) && r[0] < r[1];
    }
    forall j: nat | SameName(request, i, j) ensures IsAlone(request, j) <==> |r| == 1 {
      assert j in r;
      if |r| > 1 {
        assert SameName(request, j, i) && SameName(request, j, r[1]);
      } else {
        forall k | 0 <= k < |request.required| && SameName(request, j, k) ensures k == j {
          assert SameName(request, i, k);
          assert k in r;
        }
      }
    }
  }

  lemma AgreementMeans(request: Request, i: nat)
    requires Leads(request, i)
    ensures var o := Occurrences(request, Group(request, i));
      && o != [] && o[0].reason == request.required[i].reason
      && (ReasonsAgree(request, i) <==> forall j | 0 <= j < |o| :: o[j].reason == o[0].reason)
      && (IsAlone(request, i) <==> |Group(request, i)| == 1)
  {
    var r := Group(request, i);
    GroupSize(request, i);
    GroupExact(request, i, |request.required|);
    var o := Occurrences(request, r);
    if forall j | 0 <= j < |o| :: o[j].reason == o[0].reason {
      forall k | 0 <= k < |request.required| && SameName(request, i, k)
        ensures request.required[k].reason == request.required[i].reason
      {
        assert k in r;
        var at :| 0 <= at < |r| && r[at] == k;
        assert o[at].reason == request.required[k].reason;
      }
    }
  }

  method ClearAll(flags: seq<bool>, indices: seq<nat>) returns (r: seq<bool>)
    requires forall j | 0 <= j < |indices| :: indices[j] < |flags|
    ensures |r| == |flags|
    ensures forall i: nat | i < |r| :: r[i] == (flags[i] && i !in indices)
  {
    r := flags;
    for j := 0 to |indices|
      invariant |r| == |flags|
      invariant forall i: nat | i < |r| :: r[i] == (flags[i] && i !in indices[..j])
    {
      r := r[indices[j] := false];
    }
    assert indices[..|indices|] == indices;
  }

  method HasReasonConflict(occurrences: seq<Occurrence>) returns (r: bool)
    requires occurrences != []
    ensures r <==> exists j | 0 <= j < |occurrences| :: occurrences[j].reason != occurrences[0].reason
  {
    for j := 0 to |occurrences|
      invariant forall k | 0 <= k < j :: occurrences[k].reason == occurrences[0].reason
    {
      if occurrences[j].reason != occurrences[0].reason {
        return true;
      }
    }
    r := false;
  }

  /** The members below `g` of the group of target `i` are collected and marked. */
  ghost predicate HasGathered(
    request: Request, i: nat, g: nat, flags: seq<bool>, classified: seq<bool>, indices: seq<nat>,
    occurrences: seq<Occurrence>)
  {
    && i < |request.required| && g <= |request.required| && |classified| == |flags| == |request.required|
    && indices == GroupUpTo(request, i, g)
    && occurrences == Occurrences(request, indices)
    && forall j | 0 <= j < |flags| :: classified[j] == (flags[j] || (j < g && SameName(request, i, j)))
  }

  lemma GatherNext(
    request: Request, i: nat, g: nat, flags: seq<bool>, classified: seq<bool>, indices: seq<nat>,
    occurrences: seq<Occurrence>)
    requires g < |request.required| && HasGathered(request, i, g, flags, classified, indices, occurrences)
    ensures SameName(request, i, g) ==>
      HasGathered(
        request, i, g + 1, flags, classified[g := true], indices + [g],
        occurrences + [Occurrence(g, request.required[g].reason)])
    ensures !SameName(request, i, g) ==> HasGathered(request, i, g + 1, flags, classified, indices, occurrences)
  {
    if SameName(request, i, g) {
      assert GroupUpTo(request, i, g + 1) == indices + [g];
      assert Occurrences(request, indices + [g]) == occurrences + [Occurrence(g, request.required[g].reason)];
    } else {
      assert GroupUpTo(request, i, g + 1) == indices;
    }
  }

  /** Gathers the group led by target `i` and marks its members. */
  method CollectGroup(request: Request, consistent: seq<bool>, flags: seq<bool>, i: nat)
    returns (classified: seq<bool>, indices: seq<nat>, occurrences: seq<Occurrence>)
    requires |consistent| == |flags| == |request.required| && Leads(request, i)
    requires forall j | 0 <= j < |consistent| :: consistent[j] == ConsistentAt(request, j)
    requires forall j | 0 <= j < |flags| :: flags[j] == IsSeen(request, j, i)
    ensures |classified| == |flags|
    ensures forall j | 0 <= j < |flags| :: classified[j] == IsSeen(request, j, i + 1)
    ensures indices == Group(request, i)
    ensures occurrences == Occurrences(request, indices)
  {
    var n := |request.required|;
    classified, indices, occurrences := flags, [], [];
    EmptyBefore(request, i, i);
    for g := i to n
      invariant HasGathered(request, i, g, flags, classified, indices, occurrences)
    {
      GatherNext(request, i, g, flags, classified, indices, occurrences);
      if consistent[g] && request.required[g].packageName == request.required[i].packageName {
        classified := classified[g := true];
        indices := indices + [g];
        occurrences := occurrences + [Occurrence(g, request.required[g].reason)];
      }
    }
    forall j | 0 <= j < n {
      SeenNext(request, j, i);
    }
  }

  /** What the leader of a larger group records. */
  lemma GroupRecords(request: Request, i: nat)
    requires i < |request.required| && Leads(request, i) && |Group(request, i)| != 1
    ensures var r := Group(request, i);
      var o, t := Occurrences(request, r), request.required[i];
      && r != [] && r[0] == i
      && (var agree := forall j | 0 <= j < |o| :: o[j].reason == o[0].reason;
          && DuplicateAt(request, i) == (if agree then [DuplicateRequired(t.packageName, o[0].reason, r)] else [])
          && ConflictAt(request, i) == if agree then [] else [ReasonConflict(t.packageName, o)])
  {
    AgreementMeans(request, i);
    GroupSize(request, i);
  }

  lemma NothingToRecord(request: Request, i: nat)
    requires i < |request.required| && (!Leads(request, i) || |Group(request, i)| == 1)
    ensures DuplicateAt(request, i) == [] && ConflictAt(request, i) == []
  {
    if Leads(request, i) {
      AgreementMeans(request, i);
    }
  }

  lemma ClearedIsNext(request: Request, i: nat, flags: seq<bool>, cleared: seq<bool>)
    requires i < |request.required| == |flags| == |cleared| && Leads(request, i) && |Group(request, i)| != 1
    requires forall j | 0 <= j < |flags| :: flags[j] == StillSelectable(request, j, i)
    requires forall j | 0 <= j < |flags| :: cleared[j] == (flags[j] && j !in Group(request, i))
    ensures forall j | 0 <= j < |flags| :: cleared[j] == StillSelectable(request, j, i + 1)
  {
    SelectableNext(request, i);
    GroupExact(request, i, |request.required|);
  }

  /** Keeps a target that is alone; a larger group is a duplicate or a conflict. */
  method ClassifyGroup(
    request: Request, i: nat, flags: seq<bool>, indices: seq<nat>, occurrences: seq<Occurrence>)
    returns (selectable: seq<bool>, duplicate: seq<DuplicateRequired>, conflict: seq<ReasonConflict>)
    requires i < |request.required| == |flags| && Leads(request, i)
    requires indices == Group(request, i) && occurrences == Occurrences(request, indices)
    requires forall j | 0 <= j < |flags| :: flags[j] == StillSelectable(request, j, i)
    ensures |selectable| == |flags|
    ensures forall j | 0 <= j < |flags| :: selectable[j] == StillSelectable(request, j, i + 1)
    ensures duplicate == DuplicateAt(request, i) && conflict == ConflictAt(request, i)
  {
    if |indices| == 1 {
      SelectableNext(request, i);
      NothingToRecord(request, i);
      return flags, [], [];
    }
    selectable := ClearAll(flags, indices);
    ClearedIsNext(request, i, flags, selectable);
    GroupRecords(request, i);
    var target := request.required[i];
    var hasConflict := HasReasonConflict(occurrences);
    if hasConflict {
      duplicate, conflict := [], [ReasonConflict(target.packageName, occurrences)];
    } else {
      duplicate, conflict := [DuplicateRequired(target.packageName, occurrences[0].reason, indices)], [];
    }
  }

  /** Groups the consistent targets by name.  `selectable` keeps the ones that
      are alone; a larger group is a duplicate or a reason conflict. */
  method GroupTargets(request: Request, consistent: seq<bool>)
    returns (selectable: seq<bool>, duplicates: seq<DuplicateRequired>, conflicts: seq<ReasonConflict>)
    requires |consistent| == |request.required|
    requires forall i | 0 <= i < |consistent| :: consistent[i] == ConsistentAt(request, i)
    ensures |selectable| == |request.required|
    ensures forall i | 0 <= i < |selectable| :: selectable[i] == IsAlone(request, i)
    ensures duplicates == DuplicateRequiredUpTo(request, |request.required|)
    ensures conflicts == ReasonConflictsUpTo(request, |request.required|)
  {
    var n := |request.required|;
    selectable := consistent;
    var classified := seq(n, _ => false);
    duplicates, conflicts := [], [];
    for i := 0 to n
      invariant GroupedUpTo(request, i, classified, selectable, duplicates, conflicts)
    {
      if !consistent[i] || classified[i] {
        FollowerAddsNothing(request, i, classified, selectable, duplicates, conflicts);
        continue;
      }
      LeadsWhenUnseen(request, i);
      var indices, occurrences, duplicate, conflict;
      classified, indices, occurrences := CollectGroup(request, consistent, classified, i);
      selectable, duplicate, conflict := ClassifyGroup(request, i, selectable, indices, occurrences);
      duplicates, conflicts := duplicates + duplicate, conflicts + conflict;
    }
    forall i | 0 <= i < n ensures StillSelectable(request, i, n) == IsAlone(request, i) {
      SeenAtEnd(request, i);
    }
  }

  /** The groups led by the targets below `i` are classified. */
  ghost predicate GroupedUpTo(
    request: Request, i: nat, classified: seq<bool>, selectable: seq<bool>, duplicates: seq<DuplicateRequired>,
    conflicts: seq<ReasonConflict>)
  {
    && i <= |request.required| == |selectable| == |classified|
    && (forall j | 0 <= j < |classified| :: classified[j] == IsSeen(request, j, i))
    && (forall j | 0 <= j < |selectable| :: selectable[j] == StillSelectable(request, j, i))
    && duplicates == DuplicateRequiredUpTo(request, i)
    && conflicts == ReasonConflictsUpTo(request, i)
  }

  lemma FollowerAddsNothing(
    request: Request, i: nat, classified: seq<bool>, selectable: seq<bool>, duplicates: seq<DuplicateRequired>,
    conflicts: seq<ReasonConflict>)
    requires i < |request.required| && (!ConsistentAt(request, i) || IsSeen(request, i, i))
    requires GroupedUpTo(request, i, classified, selectable, duplicates, conflicts)
    ensures GroupedUpTo(request, i + 1, classified, selectable, duplicates, conflicts)
  {
    SelectableNext(request, i);
    NothingToRecord(request, i);
  }

  lemma LeadsWhenUnseen(request: Request, i: nat)
    requires i < |request.required| && ConsistentAt(request, i) && !IsSeen(request, i, i)
    ensures Leads(request, i)
  {
  }

  lemma SeenAtEnd(request: Request, i: nat)
    requires i < |request.required|
    ensures StillSelectable(request, i, |request.required|) == IsAlone(request, i)
  {
    if ConsistentAt(request, i) {
      assert SameName(request, i, i);
    }
  }

  ghost predicate IsUniqueBelow(request: Request, j: nat, n: nat)
    requires n <= |request.produced|
  {
    && j < n && IsValidPackageName(request.produced[j])
    && forall k | 0 <= k < n && k != j :: request.produced[k] != request.produced[j]
  }

  /** Marks the artifacts whose name is valid and shared with no other. */
  method MarkProduced(request: Request)
    returns (unique: seq<bool>, inconsistencies: seq<Inconsistency>, duplicates: seq<DuplicateProduced>)
    ensures |unique| == |request.produced|
    ensures forall i | 0 <= i < |unique| :: unique[i] == IsUniqueArtifact(request, i)
    ensures inconsistencies == ProducedInconsistencies(request, |request.produced|)
    ensures duplicates == DuplicateProducedUpTo(request, |request.produced|)
  {
    var produced := request.produced;
    unique := seq(|produced|, _ => true);
    inconsistencies, duplicates := [], [];
    for i := 0 to |produced|
      invariant |unique| == |produced|
      invariant forall j | 0 <= j < i :: unique[j] == IsUniqueBelow(request, j, i)
      invariant forall j | i <= j < |produced| :: unique[j]
      invariant inconsistencies == ProducedInconsistencies(request, i)
      invariant duplicates == DuplicateProducedUpTo(request, i)
    {
      if !IsValidPackageName(produced[i]) {
        unique := unique[i := false];
        inconsistencies := inconsistencies + [Inconsistency(ProducedPackage, Some(i), produced[i])];
        continue;
      }
      var prior := 0;
      while prior < i && produced[prior] != produced[i]
        invariant prior <= i
        invariant forall k | 0 <= k < prior :: produced[k] != produced[i]
      {
        prior := prior + 1;
      }
      if prior < i {
        FirstIs(request, i, prior);
        unique := unique[prior := false][i := false];
        duplicates := duplicates + [DuplicateProduced(prior, i, produced[i])];
      }
    }
  }

  lemma FirstIs(request: Request, i: nat, prior: nat)
    requires prior <= i < |request.produced| && request.produced[prior] == request.produced[i]
    requires forall k | 0 <= k < prior :: request.produced[k] != request.produced[i]
    ensures FirstArtifact(request, i) == prior
  {
  }

  /** Pairs every selectable target with the one artifact that carries its name. */
  method MatchTargets(request: Request, hasValidBase: bool, selectable: seq<bool>, unique: seq<bool>)
    returns (selected: seq<bool>, matches: seq<Match>, missing: seq<Missing>)
    requires hasValidBase == IsValidPackageName(request.packageBase)
    requires |selectable| == |request.required| && |unique| == |request.produced|
    requires forall i | 0 <= i < |selectable| :: selectable[i] == IsAlone(request, i)
    requires forall a | 0 <= a < |unique| :: unique[a] == IsUniqueArtifact(request, a)
    ensures |selected| == |request.produced|
    ensures forall a | 0 <= a < |selected| :: selected[a] == IsSelectedArtifact(request, a)
    ensures matches == MatchesUpTo(request, |request.required|)
    ensures missing == MissingUpTo(request, |request.required|)
  {
    var produced := request.produced;
    selected := seq(|produced|, _ => false);
    matches, missing := [], [];
    for i := 0 to |request.required|
      invariant HasMatched(request, i, selected, matches, missing)
    {
      if !hasValidBase || !selectable[i] {
        NothingMatched(request, i, selected, matches, missing);
        continue;
      }
      var target := request.required[i];
      var count, index := CountArtifacts(request, target.packageName);
      if count == 0 {
        OneMissing(request, i, selected, matches, missing);
        missing := missing + [Missing(i, target)];
        continue;
      }
      if count != 1 || !unique[index] {
        NothingMatched(request, i, selected, matches, missing);
        continue;
      }
      OneMatched(request, i, index, selected, matches, missing);
      matches := matches + [Match(i, index, produced[index], target.reason)];
      selected := selected[index := true];
    }
  }

  /** The targets below `i` are matched or missing. */
  ghost predicate HasMatched(
    request: Request, i: nat, selected: seq<bool>, matches: seq<Match>, missing: seq<Missing>)
    requires i <= |request.required|
  {
    && |selected| == |request.produced|
    && (forall a | 0 <= a < |selected| :: selected[a] <==> exists k | 0 <= k < i :: Matches(request, k, a))
    && matches == MatchesUpTo(request, i) && missing == MissingUpTo(request, i)
  }

  lemma NothingMatched(request: Request, i: nat, selected: seq<bool>, matches: seq<Match>, missing: seq<Missing>)
    requires i < |request.required| && HasMatched(request, i, selected, matches, missing)
    requires !IsMissing(request, i) && !IsMatched(request, i)
    ensures HasMatched(request, i + 1, selected, matches, missing)
  {
    assert matches + [] == matches && missing + [] == missing;
  }

  lemma OneMissing(request: Request, i: nat, selected: seq<bool>, matches: seq<Match>, missing: seq<Missing>)
    requires i < |request.required| && HasMatched(request, i, selected, matches, missing)
    requires IsMissing(request, i)
    ensures HasMatched(request, i + 1, selected, matches, missing + [Missing(i, request.required[i])])
  {
    assert matches + [] == matches;
  }

  lemma OneMatched(
    request: Request, i: nat, index: nat, selected: seq<bool>, matches: seq<Match>, missing: seq<Missing>)
    requires i < |request.required| && HasMatched(request, i, selected, matches, missing)
    requires Matches(request, i, index)
    ensures HasMatched(
      request, i + 1, selected[index := true],
      matches + [Match(i, index, request.produced[index], request.required[i].reason)], missing)
  {
    assert missing + [] == missing;
  }

  method CountArtifacts(request: Request, packageName: string) returns (count: nat, index: nat)
    ensures count == 0 <==> packageName !in request.produced
    ensures count > 0 ==> index < |request.produced| && request.produced[index] == packageName
    ensures count == 1 <==> exists a ::
      && 0 <= a < |request.produced| && request.produced[a] == packageName
      && forall j | 0 <= j < |request.produced| && j != a :: request.produced[j] != packageName
  {
    count, index := 0, 0;
    for a := 0 to |request.produced|
      invariant count == 0 <==> packageName !in request.produced[..a]
      invariant count > 0 ==> index < a && request.produced[index] == packageName
      invariant count == 1 <==> count > 0 && forall j | 0 <= j < a && j != index :: request.produced[j] != packageName
    {
      if request.produced[a] != packageName {
        continue;
      }
      count := count + 1;
      index := a;
    }
    assert request.produced[..|request.produced|] == request.produced;
  }

  method CollectUnselected(request: Request, selected: seq<bool>) returns (unselected: seq<string>)
    requires |selected| == |request.produced|
    requires forall a | 0 <= a < |selected| :: selected[a] == IsSelectedArtifact(request, a)
    ensures unselected == UnselectedUpTo(request, |request.produced|)
  {
    unselected := [];
    for a := 0 to |request.produced|
      invariant unselected == UnselectedUpTo(request, a)
    {
      if !selected[a] {
        unselected := unselected + [request.produced[a]];
      }
    }
  }

  method Diagnose(request: Request) returns (failure: Failure)
    ensures failure == Diagnosis(request)
  {
    var hasValidBase := IsValidPackageName(request.packageBase);
    var inconsistencies :=
      if hasValidBase then [] else [Inconsistency(PackageBase, None, request.packageBase)];
    var consistent, required, mismatches, unknown := CheckTargets(request);
    var selectable, duplicateRequired, conflicts := GroupTargets(request, consistent);
    var unique, produced, duplicateProduced := MarkProduced(request);
    var selected, matches, missing := MatchTargets(request, hasValidBase, selectable, unique);
    var unselected := CollectUnselected(request, selected);
    failure := Failure(
      request.packageBase, matches, unselected, missing, duplicateProduced, duplicateRequired, conflicts, mismatches,
      inconsistencies + required + produced, unknown);
  }

  method SelectPackageBaseArtifacts(request: Request) returns (result: Result)
    ensures result == SelectionResult(request)
  {
    var failure := Diagnose(request);
    if HasFailures(failure) {
      return Failed(failure);
    }
    var selected := TakeMatches(failure.partialMatches);
    result := Success(failure.packageBase, selected, failure.unselected);
  }

  method TakeMatches(matches: seq<Match>) returns (selected: seq<Selected>)
    ensures selected == SelectedOf(matches)
  {
    selected := [];
    for j := 0 to |matches|
      invariant selected == SelectedOf(matches[..j])
    {
      selected := selected + [Selected(matches[j].artifact, matches[j].reason)];
    }
    assert matches[..|matches|] == matches;
  }

  // ----- when a selection succeeds, and with what -----

  /** What a request must satisfy; nothing here mentions the passes. */
  ghost predicate IsSatisfiable(request: Request) {
    && IsValidPackageName(request.packageBase)
    && (forall i | 0 <= i < |request.required| :: IsConsistent(request, request.required[i]))
    && (forall i, j | 0 <= i < j < |request.required| ::
          request.required[i].packageName != request.required[j].packageName)
    && (forall a | 0 <= a < |request.produced| :: IsValidPackageName(request.produced[a]))
    && (forall a, b | 0 <= a < b < |request.produced| :: request.produced[a] != request.produced[b])
    && (forall i | 0 <= i < |request.required| :: request.required[i].packageName in request.produced)
  }

  ghost predicate NoTargetRecords(request: Request, n: nat)
    requires n <= |request.required|
  {
    && MismatchesUpTo(request, n) == [] && RequiredInconsistencies(request, n) == []
    && UnknownReasonsUpTo(request, n) == []
  }

  lemma {:induction n} NoMismatches(request: Request, n: nat)
    requires n <= |request.required|
    ensures MismatchesUpTo(request, n) == [] <==>
      forall i | 0 <= i < n :: request.required[i].packageBase == request.packageBase
  {
  }

  predicate HasValidNames(t: Target) {
    IsValidPackageName(t.packageBase) && IsValidPackageName(t.packageName)
  }

  lemma {:induction false} NoInconsistencies(request: Request, n: nat)
    requires n <= |request.required|
    ensures RequiredInconsistencies(request, n) == [] <==> forall i | 0 <= i < n :: HasValidNames(request.required[i])
  {
    if n > 0 {
      NoInconsistencies(request, n - 1);
      var t := request.required[n - 1];
      assert TargetInconsistencies(t, n - 1) == [] <==> HasValidNames(t);
    }
  }

  lemma {:induction n} NoUnknownReasons(request: Request, n: nat)
    requires n <= |request.required|
    ensures UnknownReasonsUpTo(request, n) == [] <==> forall i | 0 <= i < n :: IsKnownReason(request.required[i].reason)
  {
  }

  lemma NoTargetDiagnostics(request: Request, n: nat)
    requires n <= |request.required|
    ensures NoTargetRecords(request, n) <==> forall i | 0 <= i < n :: IsConsistent(request, request.required[i])
  {
    NoMismatches(request, n);
    NoInconsistencies(request, n);
    NoUnknownReasons(request, n);
  }

  lemma {:induction false} NoGroupDiagnostics(request: Request, n: nat)
    requires n <= |request.required|
    ensures NoGroupRecords(request, n) <==> LeadersAreAlone(request, n)
  {
    if n > 0 {
      var m := n - 1;
      NoGroupDiagnostics(request, m);
      NothingAt(request, m);
      NoGroupRecordsNext(request, m);
      OneMoreLeader(request, m);
      assert m + 1 == n;
    }
  }

  ghost predicate NoGroupRecords(request: Request, n: nat)
    requires n <= |request.required|
  {
    DuplicateRequiredUpTo(request, n) == [] && ReasonConflictsUpTo(request, n) == []
  }

  lemma NoGroupRecordsNext(request: Request, m: nat)
    requires m < |request.required|
    ensures NoGroupRecords(request, m + 1) <==>
      NoGroupRecords(request, m) && DuplicateAt(request, m) == [] && ConflictAt(request, m) == []
  {
  }

  ghost predicate LeadersAreAlone(request: Request, n: nat) {
    forall i | 0 <= i < n :: Leads(request, i) ==> IsAlone(request, i)
  }

  lemma OneMoreLeader(request: Request, m: nat)
    ensures LeadersAreAlone(request, m + 1) <==>
      LeadersAreAlone(request, m) && (Leads(request, m) ==> IsAlone(request, m))
  {
  }

  lemma NothingAt(request: Request, i: nat)
    requires i < |request.required|
    ensures DuplicateAt(request, i) == [] && ConflictAt(request, i) == [] <==>
      (Leads(request, i) ==> IsAlone(request, i))
  {
  }

  lemma {:induction n} NoneMissing(request: Request, n: nat)
    requires n <= |request.required|
    ensures MissingUpTo(request, n) == [] <==> forall i | 0 <= i < n :: !IsMissing(request, i)
  {
  }

  lemma {:induction n} NoProducedDiagnostics(request: Request, n: nat)
    requires n <= |request.produced|
    ensures ProducedInconsistencies(request, n) == [] <==>
      forall a | 0 <= a < n :: IsValidPackageName(request.produced[a])
    ensures DuplicateProducedUpTo(request, n) == [] <==> forall a | 0 <= a < n :: !RepeatsArtifact(request, a)
  {
  }

  /** The first consistent target that names the package of target `j`. */
  lemma {:induction false} HasLeader(request: Request, j: nat, k: nat) returns (i: nat)
    requires ConsistentAt(request, j) && SameName(request, j, k)
    ensures i <= k && Leads(request, i) && SameName(request, i, j) && SameName(request, j, i)
    decreases k
  {
    if h :| 0 <= h < k && SameName(request, k, h) {
      i := HasLeader(request, j, h);
    } else {
      i := k;
    }
  }

  lemma NamesDiffer(request: Request)
    requires forall i | 0 <= i < |request.required| :: IsConsistent(request, request.required[i])
    requires forall i | 0 <= i < |request.required| :: Leads(request, i) ==> IsAlone(request, i)
    ensures forall i, j | 0 <= i < j < |request.required| ::
      request.required[i].packageName != request.required[j].packageName
  {
    forall i, j | 0 <= i < j < |request.required|
      ensures request.required[i].packageName != request.required[j].packageName
    {
      if request.required[i].packageName == request.required[j].packageName {
        var leader := HasLeader(request, j, j);
        assert SameName(request, leader, i);
      }
    }
  }

  lemma ArtifactsDiffer(request: Request)
    requires forall a | 0 <= a < |request.produced| :: IsValidPackageName(request.produced[a])
    requires forall a | 0 <= a < |request.produced| :: !RepeatsArtifact(request, a)
    ensures forall a, b | 0 <= a < b < |request.produced| :: request.produced[a] != request.produced[b]
  {
    forall a, b | 0 <= a < b < |request.produced| ensures request.produced[a] != request.produced[b] {
      assert !RepeatsArtifact(request, b);
    }
  }

  lemma NoneIsMissing(request: Request)
    requires IsValidPackageName(request.packageBase)
    requires forall i | 0 <= i < |request.required| :: IsConsistent(request, request.required[i])
    requires forall i, j | 0 <= i < j < |request.required| ::
      request.required[i].packageName != request.required[j].packageName
    requires forall i | 0 <= i < |request.required| :: !IsMissing(request, i)
    ensures forall i | 0 <= i < |request.required| :: request.required[i].packageName in request.produced
  {
    forall i | 0 <= i < |request.required| ensures request.required[i].packageName in request.produced {
      assert ConsistentAt(request, i);
      forall j | 0 <= j < |request.required| && SameName(request, i, j) ensures j == i {
      }
      assert !IsMissing(request, i);
    }
  }

  lemma SuccessLeavesNoRecord(request: Request)
    requires SelectionResult(request).Success?
    ensures var r, p := |request.required|, |request.produced|;
      && BaseInconsistencies(request) == [] && NoTargetRecords(request, r)
      && DuplicateRequiredUpTo(request, r) == [] && ReasonConflictsUpTo(request, r) == []
      && MissingUpTo(request, r) == []
      && ProducedInconsistencies(request, p) == [] && DuplicateProducedUpTo(request, p) == []
  {
  }

  lemma NoDiagnosticsAtAll(request: Request)
    requires SelectionResult(request).Success?
    ensures IsValidPackageName(request.packageBase)
    ensures forall i | 0 <= i < |request.required| :: IsConsistent(request, request.required[i])
    ensures forall i | 0 <= i < |request.required| :: Leads(request, i) ==> IsAlone(request, i)
    ensures forall i | 0 <= i < |request.required| :: !IsMissing(request, i)
    ensures forall a | 0 <= a < |request.produced| :: IsValidPackageName(request.produced[a])
    ensures forall a | 0 <= a < |request.produced| :: !RepeatsArtifact(request, a)
  {
    SuccessLeavesNoRecord(request);
    NoTargetDiagnostics(request, |request.required|);
    NoGroupDiagnostics(request, |request.required|);
    NoneMissing(request, |request.required|);
    NoProducedDiagnostics(request, |request.produced|);
  }

  lemma SuccessIsSatisfiable(request: Request)
    requires SelectionResult(request).Success?
    ensures IsSatisfiable(request)
  {
    NoDiagnosticsAtAll(request);
    NamesDiffer(request);
    ArtifactsDiffer(request);
    NoneIsMissing(request);
  }

  lemma SatisfiableIsAlone(request: Request)
    requires IsSatisfiable(request)
    ensures forall i | 0 <= i < |request.required| :: IsAlone(request, i)
  {
  }

  lemma SatisfiableSucceeds(request: Request)
    requires IsSatisfiable(request)
    ensures SelectionResult(request).Success?
  {
    SatisfiableIsAlone(request);
    NoTargetDiagnostics(request, |request.required|);
    NoGroupDiagnostics(request, |request.required|);
    NoneMissing(request, |request.required|);
    NoProducedDiagnostics(request, |request.produced|);
  }

  /** The selection succeeds exactly on the satisfiable requests. */
  lemma SelectionSucceedsExactly(request: Request)
    ensures SelectionResult(request).Success? <==> IsSatisfiable(request)
  {
    if SelectionResult(request).Success? {
      SuccessIsSatisfiable(request);
    } else if IsSatisfiable(request) {
      SatisfiableSucceeds(request);
    }
  }

  ghost predicate NamesTarget(request: Request, name: string) {
    exists i | 0 <= i < |request.required| :: request.required[i].packageName == name
  }

  /** The artifacts below `n` that some target names, in produced order. */
  ghost function NamedUpTo(request: Request, n: nat): seq<string>
    requires n <= |request.produced|
  {
    if n == 0 then []
    else
      var name := request.produced[n - 1];
      NamedUpTo(request, n - 1) + (if NamesTarget(request, name) then [name] else [])
  }

  /** The artifacts below `n` that no target names, in produced order. */
  ghost function RestUpTo(request: Request, n: nat): seq<string>
    requires n <= |request.produced|
  {
    if n == 0 then []
    else
      var name := request.produced[n - 1];
      RestUpTo(request, n - 1) + (if NamesTarget(request, name) then [] else [name])
  }

  ghost function RequiredNames(request: Request): seq<string> {
    seq(|request.required|, i requires 0 <= i < |request.required| => request.required[i].packageName)
  }

  lemma SatisfiableMatches(request: Request, i: nat)
    requires IsSatisfiable(request) && i < |request.required|
    ensures IsAlone(request, i) && IsMatched(request, i)
    ensures forall a: nat :: Matches(request, i, a) <==>
      a < |request.produced| && request.produced[a] == request.required[i].packageName
  {
    forall a: nat | a < |request.produced| ensures IsUniqueArtifact(request, a) {
    }
    assert request.required[i].packageName in request.produced;
    var a :| 0 <= a < |request.produced| && request.produced[a] == request.required[i].packageName;
    assert Matches(request, i, a);
  }

  lemma {:induction false} SatisfiableMatchesUpTo(request: Request, n: nat)
    requires IsSatisfiable(request) && n <= |request.required|
    ensures |MatchesUpTo(request, n)| == n
    ensures forall i | 0 <= i < n :: var m := MatchesUpTo(request, n)[i];
      && m.requiredIndex == i && Matches(request, i, m.producedIndex)
      && m.artifact == request.required[i].packageName && m.reason == request.required[i].reason
  {
    if n > 0 {
      SatisfiableMatches(request, n - 1);
      SatisfiableMatchesUpTo(request, n - 1);
    }
  }

  lemma {:induction false} UnselectedIsRest(request: Request, n: nat)
    requires IsSatisfiable(request) && n <= |request.produced|
    ensures UnselectedUpTo(request, n) == RestUpTo(request, n)
  {
    if n > 0 {
      UnselectedIsRest(request, n - 1);
      if i :| 0 <= i < |request.required| && request.required[i].packageName == request.produced[n - 1] {
        SatisfiableMatches(request, i);
        assert Matches(request, i, n - 1);
      }
    }
  }

  lemma {:induction false} NamedAreTargets(request: Request, n: nat)
    requires n <= |request.produced|
    ensures forall name ::
      name in NamedUpTo(request, n) <==> name in request.produced[..n] && NamesTarget(request, name)
  {
    if n > 0 {
      NamedAreTargets(request, n - 1);
      assert request.produced[..n] == request.produced[..n - 1] + [request.produced[n - 1]];
    }
  }

  ghost function ProducedUpTo(request: Request, n: nat): seq<string>
    requires n <= |request.produced|
  {
    if n == 0 then [] else ProducedUpTo(request, n - 1) + [request.produced[n - 1]]
  }

  lemma {:induction false} ProducedUpToIsPrefix(request: Request, n: nat)
    requires n <= |request.produced|
    ensures ProducedUpTo(request, n) == request.produced[..n]
  {
    if n > 0 {
      ProducedUpToIsPrefix(request, n - 1);
    }
  }

  lemma OneArtifactMore(request: Request, n: nat)
    requires n < |request.produced|
    ensures var name, named, rest := request.produced[n], NamedUpTo(request, n), RestUpTo(request, n);
      && NamedUpTo(request, n + 1) == (if NamesTarget(request, name) then named + [name] else named)
      && RestUpTo(request, n + 1) == (if NamesTarget(request, name) then rest else rest + [name])
      && ProducedUpTo(request, n + 1) == ProducedUpTo(request, n) + [name]
  {
    assert NamedUpTo(request, n) + [] == NamedUpTo(request, n) && RestUpTo(request, n) + [] == RestUpTo(request, n);
  }

  /** Named and rest add up to the produced names below `n`. */
  ghost predicate AddUp(request: Request, n: nat)
    requires n <= |request.produced|
  {
    multiset(NamedUpTo(request, n)) + multiset(RestUpTo(request, n)) == multiset(ProducedUpTo(request, n))
  }

  lemma AddUpMore(request: Request, n: nat)
    requires n < |request.produced| && AddUp(request, n)
    ensures AddUp(request, n + 1)
  {
    OneArtifactMore(request, n);
    var name, all, allNext := request.produced[n], ProducedUpTo(request, n), ProducedUpTo(request, n + 1);
    var named, rest := NamedUpTo(request, n), RestUpTo(request, n);
    var namedNext, restNext := NamedUpTo(request, n + 1), RestUpTo(request, n + 1);
    if NamesTarget(request, name) {
      OneMoreName(named, rest, all, name, namedNext, restNext, allNext);
    } else {
      OneMoreName(rest, named, all, name, restNext, namedNext, allNext);
    }
  }

  lemma {:induction false} NamedAndRest(request: Request, n: nat)
    requires n <= |request.produced|
    ensures AddUp(request, n)
  {
    if n > 0 {
      var m := n - 1;
      NamedAndRest(request, m);
      AddUpMore(request, m);
      assert m + 1 == n;
    }
  }

  lemma OneMoreName(
    taking: seq<string>, other: seq<string>, all: seq<string>, name: string, takingNext: seq<string>,
    otherNext: seq<string>, allNext: seq<string>)
    requires multiset(taking) + multiset(other) == multiset(all)
    requires takingNext == taking + [name] && otherNext == other && allNext == all + [name]
    ensures multiset(takingNext) + multiset(otherNext) == multiset(allNext)
  {
  }

  lemma {:induction false} DistinctCounts(s: seq<string>)
    requires AreDistinct(s)
    ensures forall x :: multiset(s)[x] == if x in s then 1 else 0
  {
    if s != [] {
      var last := |s| - 1;
      DistinctCounts(s[..last]);
      assert s == s[..last] + [s[last]];
    }
  }

  lemma {:induction false} NamedDistinct(request: Request, n: nat)
    requires IsSatisfiable(request) && n <= |request.produced|
    ensures AreDistinct(NamedUpTo(request, n))
    ensures forall name | name in NamedUpTo(request, n) :: name in request.produced[..n]
  {
    if n > 0 {
      NamedDistinct(request, n - 1);
      assert request.produced[n - 1] !in request.produced[..n - 1];
    }
  }

  lemma RequiredAreNamed(request: Request)
    requires IsSatisfiable(request)
    ensures multiset(RequiredNames(request)) == multiset(NamedUpTo(request, |request.produced|))
  {
    var names, named := RequiredNames(request), NamedUpTo(request, |request.produced|);
    NamedAreTargets(request, |request.produced|);
    NamedDistinct(request, |request.produced|);
    assert request.produced[..|request.produced|] == request.produced;
    DistinctCounts(names);
    DistinctCounts(named);
    SameNamesAreNamed(request, names, named);
  }

  lemma SameNamesAreNamed(request: Request, names: seq<string>, named: seq<string>)
    requires names == RequiredNames(request)
    requires forall name :: name in named <==> NamesTarget(request, name)
    ensures forall name :: name in names <==> name in named
  {
    forall name ensures name in names <==> name in named {
      if name in names {
        var i :| 0 <= i < |names| && names[i] == name;
        assert request.required[i].packageName == name;
      }
      if NamesTarget(request, name) {
        var i :| 0 <= i < |request.required| && request.required[i].packageName == name;
        assert names[i] == name;
      }
    }
  }

  /** On success the selection pairs every target with its own artifact, in the
      targets' order; the rest keeps its produced order; nothing is lost. */
  lemma SuccessSelectsEverything(request: Request)
    requires IsSatisfiable(request)
    ensures var r := SelectionResult(request);
      && r.Success? && r.packageBase == request.packageBase
      && |r.selected| == |request.required|
      && (forall i | 0 <= i < |request.required| ::
            r.selected[i] == Selected(request.required[i].packageName, request.required[i].reason))
      && r.unselected == RestUpTo(request, |request.produced|)
    ensures multiset(RequiredNames(request)) + multiset(RestUpTo(request, |request.produced|))
      == multiset(request.produced)
  {
    SelectionSucceedsExactly(request);
    SatisfiableSelects(request);
    NothingIsLost(request);
  }

  lemma SatisfiableSelects(request: Request)
    requires IsSatisfiable(request)
    ensures var d := Diagnosis(request); var selected := SelectedOf(d.partialMatches);
      && d.packageBase == request.packageBase && |selected| == |request.required|
      && (forall i | 0 <= i < |request.required| ::
            selected[i] == Selected(request.required[i].packageName, request.required[i].reason))
      && d.unselected == RestUpTo(request, |request.produced|)
  {
    SatisfiableMatchesUpTo(request, |request.required|);
    UnselectedIsRest(request, |request.produced|);
  }

  lemma NothingIsLost(request: Request)
    requires IsSatisfiable(request)
    ensures multiset(RequiredNames(request)) + multiset(RestUpTo(request, |request.produced|))
      == multiset(request.produced)
  {
    NamedAndRest(request, |request.produced|);
    RequiredAreNamed(request);
    ProducedUpToIsPrefix(request, |request.produced|);
    assert request.produced[..|request.produced|] == request.produced;
  }

  // ----- the diagnostics are exact -----

  ghost function DuplicateRecordsWith(records: seq<DuplicateRequired>, j: nat): nat {
    if records == [] then 0
    else
      var last := |records| - 1;
      DuplicateRecordsWith(records[..last], j) + (if j in records[last].indices then 1 else 0)
  }

  ghost predicate HasOccurrence(occurrences: seq<Occurrence>, j: nat) {
    exists k | 0 <= k < |occurrences| :: occurrences[k].requiredIndex == j
  }

  ghost function ConflictRecordsWith(records: seq<ReasonConflict>, j: nat): nat {
    if records == [] then 0
    else
      var last := |records| - 1;
      ConflictRecordsWith(records[..last], j) + (if HasOccurrence(records[last].occurrences, j) then 1 else 0)
  }

  lemma InGroup(request: Request, i: nat, j: nat)
    requires i < |request.required|
    ensures j in Group(request, i) <==> SameName(request, i, j)
    ensures HasOccurrence(Occurrences(request, Group(request, i)), j) <==> SameName(request, i, j)
  {
    GroupExact(request, i, |request.required|);
    var r := Group(request, i);
    if j in r {
      var k :| 0 <= k < |r| && r[k] == j;
      assert Occurrences(request, r)[k].requiredIndex == j;
    }
  }

  lemma OneLeader(request: Request, i: nat, j: nat, leader: nat)
    requires Leads(request, leader) && SameName(request, leader, j)
    requires Leads(request, i) && SameName(request, i, j)
    ensures i == leader
  {
    assert SameName(request, i, leader) && SameName(request, leader, i);
  }

  lemma OneMoreDuplicate(request: Request, n: nat, j: nat)
    requires n < |request.required|
    ensures DuplicateRecordsWith(DuplicateRequiredUpTo(request, n + 1), j) ==
      DuplicateRecordsWith(DuplicateRequiredUpTo(request, n), j)
      + (if LeadsDuplicates(request, n) && SameName(request, n, j) then 1 else 0)
  {
    var before, after := DuplicateRequiredUpTo(request, n), DuplicateRequiredUpTo(request, n + 1);
    InGroup(request, n, j);
    if LeadsDuplicates(request, n) {
      assert after == before + [after[|before|]] && after[..|before|] == before;
      assert after[|before|].indices == Group(request, n);
    } else {
      assert after == before;
    }
  }

  lemma OnlyLeader(request: Request, i: nat, j: nat, leader: nat)
    requires Leads(request, leader) && SameName(request, leader, j)
    ensures Leads(request, i) && SameName(request, i, j) <==> i == leader
  {
    if Leads(request, i) && SameName(request, i, j) {
      OneLeader(request, i, j, leader);
    }
  }

  lemma {:induction false} DuplicatesWith(request: Request, j: nat, leader: nat, n: nat)
    requires n <= |request.required| && Leads(request, leader) && SameName(request, leader, j)
    ensures DuplicateRecordsWith(DuplicateRequiredUpTo(request, n), j) ==
      if leader < n && LeadsDuplicates(request, leader) then 1 else 0
  {
    if n > 0 {
      var m := n - 1;
      DuplicatesWith(request, j, leader, m);
      OneMoreDuplicate(request, m, j);
      OnlyLeader(request, m, j, leader);
      assert m + 1 == n;
    }
  }

  lemma OneMoreConflict(request: Request, n: nat, j: nat)
    requires n < |request.required|
    ensures ConflictRecordsWith(ReasonConflictsUpTo(request, n + 1), j) ==
      ConflictRecordsWith(ReasonConflictsUpTo(request, n), j)
      + (if LeadsConflict(request, n) && SameName(request, n, j) then 1 else 0)
  {
    var before, after := ReasonConflictsUpTo(request, n), ReasonConflictsUpTo(request, n + 1);
    InGroup(request, n, j);
    if LeadsConflict(request, n) {
      assert after == before + [after[|before|]] && after[..|before|] == before;
      assert after[|before|].occurrences == Occurrences(request, Group(request, n));
    } else {
      assert after == before;
    }
  }

  lemma {:induction false} ConflictsWith(request: Request, j: nat, leader: nat, n: nat)
    requires n <= |request.required| && Leads(request, leader) && SameName(request, leader, j)
    ensures ConflictRecordsWith(ReasonConflictsUpTo(request, n), j) ==
      if leader < n && LeadsConflict(request, leader) then 1 else 0
  {
    if n > 0 {
      var m := n - 1;
      ConflictsWith(request, j, leader, m);
      OneMoreConflict(request, m, j);
      OnlyLeader(request, m, j, leader);
      assert m + 1 == n;
    }
  }

  /** Every consistent target is alone, or in exactly one duplicate record, or in
      exactly one conflict record, and never in two of these. */
  lemma TargetsArePartitioned(request: Request, j: nat)
    requires ConsistentAt(request, j)
    ensures (if IsAlone(request, j) then 1 else 0)
      + DuplicateRecordsWith(Diagnosis(request).duplicateRequired, j)
      + ConflictRecordsWith(Diagnosis(request).reasonConflicts, j) == 1
  {
    var leader := HasLeader(request, j, j);
    DuplicatesWith(request, j, leader, |request.required|);
    ConflictsWith(request, j, leader, |request.required|);
    GroupSize(request, leader);
  }

  ghost function ValidNames(request: Request, n: nat): seq<string>
    requires n <= |request.produced|
  {
    if n == 0 then []
    else
      ValidNames(request, n - 1)
      + (if IsValidPackageName(request.produced[n - 1]) then [request.produced[n - 1]] else [])
  }

  ghost function Members(s: seq<string>): set<string> {
    set x | x in s
  }

  lemma {:induction false} ValidNamesExact(request: Request, n: nat)
    requires n <= |request.produced|
    ensures forall name :: name in ValidNames(request, n) <==> name in request.produced[..n] && IsValidPackageName(name)
  {
    if n > 0 {
      ValidNamesExact(request, n - 1);
      assert request.produced[..n] == request.produced[..n - 1] + [request.produced[n - 1]];
    }
  }

  lemma OneMoreValidName(request: Request, n: nat)
    requires n < |request.produced|
    ensures var isValid := IsValidPackageName(request.produced[n]); var repeats := RepeatsArtifact(request, n);
      && |ValidNames(request, n + 1)| == |ValidNames(request, n)| + (if isValid then 1 else 0)
      && |Members(ValidNames(request, n + 1))|
         == |Members(ValidNames(request, n))| + (if isValid && !repeats then 1 else 0)
      && |DuplicateProducedUpTo(request, n + 1)| == |DuplicateProducedUpTo(request, n)| + (if repeats then 1 else 0)
  {
    ValidNamesExact(request, n);
    var name := request.produced[n];
    var before, after := Members(ValidNames(request, n)), Members(ValidNames(request, n + 1));
    assert name in request.produced[..n] <==> !IsFirstArtifact(request, n);
    if IsValidPackageName(name) {
      assert after == before + {name};
      assert name in before <==> RepeatsArtifact(request, n);
    } else {
      assert after == before;
    }
  }

  /** One duplicate record for every valid artifact beyond the first of its name. */
  lemma {:induction false} DuplicateRecordsCount(request: Request, n: nat)
    requires n <= |request.produced|
    ensures |DuplicateProducedUpTo(request, n)| + |Members(ValidNames(request, n))| == |ValidNames(request, n)|
  {
    if n > 0 {
      var m := n - 1;
      DuplicateRecordsCount(request, m);
      OneMoreValidName(request, m);
      assert m + 1 == n;
    }
  }

  /** A duplicate record cites the smallest index of the name and a later one. */
  lemma {:induction false} DuplicateRecordsCite(request: Request, n: nat, k: nat)
    requires n <= |request.produced| && k < |DuplicateProducedUpTo(request, n)|
    ensures var d := DuplicateProducedUpTo(request, n)[k];
      && d.first < d.duplicate < n && IsFirstArtifact(request, d.first)
      && request.produced[d.first] == request.produced[d.duplicate] == d.packageName
  {
    if k < |DuplicateProducedUpTo(request, n - 1)| {
      DuplicateRecordsCite(request, n - 1, k);
    }
  }
}
