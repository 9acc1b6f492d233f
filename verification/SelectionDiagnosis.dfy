/**
 What a failed selection reports, record by record, and what of it a failed correlation
 hands on.
 */
module SelectionDiagnosis {
  import opened Wrappers
  import opened ArtifactSelection
  import opened IdentityCorrelation
  import opened PackageIdentifier

  // ----- targets and names -----

  /** The package names by the codes of their characters. */
  lemma NameMeans(name: string)
    ensures IsValidPackageName(name) <==>
      && |name| > 0 && name[0] as int != 45 && name != "." && name != ".."
      && forall i | 0 <= i < |name| ::
           var code := name[i] as int;
           || 97 <= code <= 122 || 65 <= code <= 90 || 48 <= code <= 57
           || code == 64 || code == 46 || code == 95 || code == 43 || code == 45
  {
    if IsValidPackageName(name) {
      forall i | 0 <= i < |name| ensures IsNameCharacter(name[i]) {
        assert name[i] in name;
      }
    }
  }

  /** Well-named, of the requested base, with a reason that is known. */
  ghost predicate IsGood(request: Request, i: int) {
    && 0 <= i < |request.required|
    && IsValidPackageName(request.required[i].packageName) && IsValidPackageName(request.packageBase)
    && request.required[i].packageBase == request.packageBase
    && (request.required[i].reason == Explicit || request.required[i].reason == Dependency)
  }

  lemma GoodMeans(request: Request, i: int)
    ensures ConsistentAt(request, i) <==> IsGood(request, i)
  {
  }

  /** No other good target has the name. */
  ghost predicate IsSingle(request: Request, i: int) {
    && IsGood(request, i)
    && forall j | IsGood(request, j) && j != i :: request.required[j].packageName != request.required[i].packageName
  }

  lemma SingleMeans(request: Request, i: nat)
    ensures IsAlone(request, i) <==> IsSingle(request, i)
  {
    GoodMeans(request, i);
    forall j: int ensures ConsistentAt(request, j) <==> IsGood(request, j) {
      GoodMeans(request, j);
    }
    if IsSingle(request, i) {
      forall j | 0 <= j < |request.required| && SameName(request, i, j) ensures j == i {
        assert IsGood(request, j);
      }
    }
    if IsAlone(request, i) {
      forall j | IsGood(request, j) && j != i
        ensures request.required[j].packageName != request.required[i].packageName
      {
        assert !SameName(request, i, j);
      }
    }
  }

  /** The artifact's name is valid and no other artifact has it. */
  ghost predicate IsProducedOnce(request: Request, a: int) {
    && 0 <= a < |request.produced| && IsValidPackageName(request.produced[a])
    && forall b | 0 <= b < |request.produced| && b != a :: request.produced[b] != request.produced[a]
  }

  // ----- lists of records -----

  /** The list holds exactly the records below `n`, in the order of their keys. */
  ghost predicate Lists<T(!new)>(list: seq<T>, key: T -> nat, isRecord: T -> bool, n: nat) {
    && (forall r :: r in list <==> key(r) < n && isRecord(r))
    && (forall a, b | 0 <= a < b < |list| :: key(list[a]) < key(list[b]))
  }

  /** At most one record has the key. */
  ghost predicate AreAt<T(!new)>(last: seq<T>, key: T -> nat, isRecord: T -> bool, n: nat) {
    |last| <= 1 && forall r :: r in last <==> key(r) == n && isRecord(r)
  }

  lemma NoneListed<T(!new)>(key: T -> nat, isRecord: T -> bool)
    ensures Lists([], key, isRecord, 0)
  {
  }

  lemma ListsMore<T(!new)>(
    list: seq<T>, last: seq<T>, all: seq<T>, key: T -> nat, isRecord: T -> bool, n: nat)
    requires 0 < n && Lists(list, key, isRecord, n - 1) && AreAt(last, key, isRecord, n - 1) && all == list + last
    ensures Lists(all, key, isRecord, n)
  {
    forall a | 0 <= a < |list| ensures key(list[a]) < n - 1 {
      assert list[a] in list;
    }
    forall a | 0 <= a < |last| ensures key(last[a]) == n - 1 {
      assert last[a] in last;
    }
  }

  // ----- records of single targets -----

  ghost predicate IsMissingRecord(request: Request, r: Missing) {
    && IsSingle(request, r.requiredIndex) && r.target == request.required[r.requiredIndex]
    && forall a | 0 <= a < |request.produced| :: request.produced[a] != r.target.packageName
  }

  ghost function MissingKey(): Missing -> nat { (r: Missing) => r.requiredIndex }

  ghost function MissingIn(request: Request): Missing -> bool { r => IsMissingRecord(request, r) }

  lemma MissingAt(request: Request, i: nat)
    requires i < |request.required|
    ensures AreAt(
      if IsMissing(request, i) then [Missing(i, request.required[i])] else [], MissingKey(), MissingIn(request), i)
  {
    SingleMeans(request, i);
    assert IsMissing(request, i) <==> IsMissingRecord(request, Missing(i, request.required[i]));
  }

  lemma {:induction false} MissingMeans(request: Request, n: nat)
    requires n <= |request.required|
    ensures Lists(MissingUpTo(request, n), MissingKey(), MissingIn(request), n)
  {
    NoneListed(MissingKey(), MissingIn(request));
    if n > 0 {
      MissingMeans(request, n - 1);
      MissingAt(request, n - 1);
      var last := if IsMissing(request, n - 1) then [Missing(n - 1, request.required[n - 1])] else [];
      ListsMore(
        MissingUpTo(request, n - 1), last, MissingUpTo(request, n), MissingKey(), MissingIn(request), n);
    }
  }

  ghost predicate IsUnknownRecord(request: Request, r: UnknownReason) {
    && r.requiredIndex < |request.required| && r.target == request.required[r.requiredIndex]
    && r.target.reason != Explicit && r.target.reason != Dependency
  }

  ghost function UnknownKey(): UnknownReason -> nat { (r: UnknownReason) => r.requiredIndex }

  ghost function UnknownIn(request: Request): UnknownReason -> bool { r => IsUnknownRecord(request, r) }

  lemma {:induction false} UnknownsMean(request: Request, n: nat)
    requires n <= |request.required|
    ensures Lists(UnknownReasonsUpTo(request, n), UnknownKey(), UnknownIn(request), n)
  {
    NoneListed(UnknownKey(), UnknownIn(request));
    if n > 0 {
      UnknownsMean(request, n - 1);
      var t := request.required[n - 1];
      var last := if IsKnownReason(t.reason) then [] else [UnknownReason(n - 1, t)];
      assert AreAt(last, UnknownKey(), UnknownIn(request), n - 1) by {
        assert IsKnownReason(t.reason) <==> !IsUnknownRecord(request, UnknownReason(n - 1, t));
      }
      ListsMore(
        UnknownReasonsUpTo(request, n - 1), last, UnknownReasonsUpTo(request, n), UnknownKey(), UnknownIn(request), n);
    }
  }

  ghost predicate IsMismatchRecord(request: Request, r: AttributionMismatch) {
    && r.requiredIndex < |request.required| && r.expectedBase == request.packageBase
    && r.actualBase == request.required[r.requiredIndex].packageBase && r.actualBase != r.expectedBase
    && r.packageName == request.required[r.requiredIndex].packageName
  }

  ghost function MismatchKey(): AttributionMismatch -> nat { (r: AttributionMismatch) => r.requiredIndex }

  ghost function MismatchIn(request: Request): AttributionMismatch -> bool { r => IsMismatchRecord(request, r) }

  lemma MismatchAt(request: Request, i: nat)
    requires i < |request.required|
    ensures var t := request.required[i];
      AreAt(
        if t.packageBase == request.packageBase then []
        else [AttributionMismatch(i, request.packageBase, t.packageBase, t.packageName)],
        MismatchKey(), MismatchIn(request), i)
  {
    var t := request.required[i];
    forall r: AttributionMismatch | r.requiredIndex == i
      ensures IsMismatchRecord(request, r) <==>
        && t.packageBase != request.packageBase
        && r == AttributionMismatch(i, request.packageBase, t.packageBase, t.packageName)
    {
    }
  }

  lemma {:induction false} MismatchesMean(request: Request, n: nat)
    requires n <= |request.required|
    ensures Lists(MismatchesUpTo(request, n), MismatchKey(), MismatchIn(request), n)
  {
    NoneListed(MismatchKey(), MismatchIn(request));
    if n > 0 {
      MismatchesMean(request, n - 1);
      MismatchAt(request, n - 1);
      var t := request.required[n - 1];
      var last := if t.packageBase == request.packageBase then []
        else [AttributionMismatch(n - 1, request.packageBase, t.packageBase, t.packageName)];
      ListsMore(
        MismatchesUpTo(request, n - 1), last, MismatchesUpTo(request, n), MismatchKey(), MismatchIn(request), n);
    }
  }

  /** A single target and the only artifact that has its name. */
  ghost predicate IsMatchRecord(request: Request, r: Match) {
    && IsSingle(request, r.requiredIndex) && IsProducedOnce(request, r.producedIndex)
    && r.artifact == request.produced[r.producedIndex] == request.required[r.requiredIndex].packageName
    && r.reason == request.required[r.requiredIndex].reason
  }

  ghost function MatchKey(): Match -> nat { (r: Match) => r.requiredIndex }

  ghost function MatchIn(request: Request): Match -> bool { r => IsMatchRecord(request, r) }

  lemma MatchesMeans(request: Request, i: nat, a: nat)
    ensures Matches(request, i, a) <==>
      && IsSingle(request, i) && IsProducedOnce(request, a)
      && request.produced[a] == request.required[i].packageName
  {
    SingleMeans(request, i);
  }

  ghost function MatchAt(request: Request, i: nat): seq<Match>
    requires i < |request.required|
  {
    if IsMatched(request, i) then
      [Match(i, MatchedArtifact(request, i), request.required[i].packageName, request.required[i].reason)]
    else []
  }

  lemma MatchAtMeans(request: Request, i: nat, r: Match)
    requires i < |request.required|
    ensures r in MatchAt(request, i) <==> r.requiredIndex == i && IsMatchRecord(request, r)
  {
    forall a: nat ensures Matches(request, i, a) <==>
      && IsSingle(request, i) && IsProducedOnce(request, a)
      && request.produced[a] == request.required[i].packageName
    {
      MatchesMeans(request, i, a);
    }
    if r.requiredIndex == i && IsMatchRecord(request, r) {
      assert Matches(request, i, r.producedIndex);
      assert MatchedArtifact(request, i) == r.producedIndex;
    }
  }

  lemma MatchIsAt(request: Request, i: nat)
    requires i < |request.required|
    ensures AreAt(MatchAt(request, i), MatchKey(), MatchIn(request), i)
  {
    forall r ensures r in MatchAt(request, i) <==> r.requiredIndex == i && IsMatchRecord(request, r) {
      MatchAtMeans(request, i, r);
    }
  }

  ghost predicate MatchesAreListed(request: Request, n: nat) {
    n <= |request.required| && Lists(MatchesUpTo(request, n), MatchKey(), MatchIn(request), n)
  }

  lemma MatchRecordsMeanFirst(request: Request)
    ensures MatchesAreListed(request, 0)
  {
    NoneListed(MatchKey(), MatchIn(request));
  }

  lemma MatchRecordsMeanFurther(request: Request, n: nat)
    requires 0 < n <= |request.required| && MatchesAreListed(request, n - 1)
    ensures MatchesAreListed(request, n)
  {
    MatchIsAt(request, n - 1);
    ListsMore(
      MatchesUpTo(request, n - 1), MatchAt(request, n - 1), MatchesUpTo(request, n), MatchKey(), MatchIn(request), n);
  }

  lemma {:induction false} MatchRecordsMean(request: Request, n: nat)
    requires n <= |request.required|
    ensures MatchesAreListed(request, n)
  {
    if n == 0 {
      MatchRecordsMeanFirst(request);
    } else {
      MatchRecordsMean(request, n - 1);
      MatchRecordsMeanFurther(request, n);
    }
  }

  // ----- identities -----

  ghost predicate IsInconsistencyRecord(request: Request, r: Inconsistency) {
    && !IsValidPackageName(r.identity)
    && match r.input
       case PackageBase => r.index.None? && r.identity == request.packageBase
       case RequiredPackageBase =>
         r.index.Some? && r.index.value < |request.required|
         && r.identity == request.required[r.index.value].packageBase
       case RequiredPackage =>
         r.index.Some? && r.index.value < |request.required|
         && r.identity == request.required[r.index.value].packageName
       case ProducedPackage =>
         r.index.Some? && r.index.value < |request.produced| && r.identity == request.produced[r.index.value]
  }

  /** The order of the reports: the base, each target's base and name, the artifacts. */
  ghost function PlaceOf(request: Request, r: Inconsistency): nat {
    var index := if r.index.Some? then r.index.value else 0;
    match r.input
    case PackageBase => 0
    case RequiredPackageBase => 1 + 2 * index
    case RequiredPackage => 2 + 2 * index
    case ProducedPackage => 1 + 2 * |request.required| + index
  }

  /** The list holds, in their order, exactly the records before the place. */
  ghost predicate ReportsBefore(request: Request, list: seq<Inconsistency>, place: nat) {
    && (forall a, b | 0 <= a < b < |list| :: PlaceOf(request, list[a]) < PlaceOf(request, list[b]))
    && (forall r :: r in list <==> IsInconsistencyRecord(request, r) && PlaceOf(request, r) < place)
  }

  /** What is at a place is not reported twice. */
  ghost predicate IsOnlyAt(request: Request, r: Inconsistency, place: nat) {
    && PlaceOf(request, r) == place
    && forall x | IsInconsistencyRecord(request, x) && PlaceOf(request, x) == place :: x == r
  }

  ghost function WithRecord(request: Request, list: seq<Inconsistency>, r: Inconsistency): seq<Inconsistency> {
    if IsInconsistencyRecord(request, r) then list + [r] else list
  }

  lemma OneReported(request: Request, list: seq<Inconsistency>, r: Inconsistency, place: nat)
    requires ReportsBefore(request, list, place) && IsOnlyAt(request, r, place)
    ensures ReportsBefore(request, WithRecord(request, list, r), place + 1)
  {
    forall a | 0 <= a < |list| ensures PlaceOf(request, list[a]) < place {
      assert list[a] in list;
    }
  }

  lemma TargetPlaces(request: Request, i: nat)
    requires i < |request.required|
    ensures IsOnlyAt(
      request, Inconsistency(RequiredPackageBase, Some(i), request.required[i].packageBase), 1 + 2 * i)
    ensures IsOnlyAt(request, Inconsistency(RequiredPackage, Some(i), request.required[i].packageName), 2 + 2 * i)
  {
  }

  lemma ArtifactPlace(request: Request, a: nat)
    requires a < |request.produced|
    ensures IsOnlyAt(
      request, Inconsistency(ProducedPackage, Some(a), request.produced[a]), 1 + 2 * |request.required| + a)
  {
  }

  lemma TargetIsReported(request: Request, list: seq<Inconsistency>, all: seq<Inconsistency>, n: nat)
    requires 0 < n <= |request.required| && ReportsBefore(request, list, 1 + 2 * (n - 1))
    requires all == list + TargetInconsistencies(request.required[n - 1], n - 1)
    ensures ReportsBefore(request, all, 1 + 2 * n)
  {
    var i := n - 1;
    var base := Inconsistency(RequiredPackageBase, Some(i), request.required[i].packageBase);
    var name := Inconsistency(RequiredPackage, Some(i), request.required[i].packageName);
    TargetPlaces(request, i);
    OneReported(request, list, base, 1 + 2 * i);
    OneReported(request, WithRecord(request, list, base), name, 2 + 2 * i);
    TargetRecords(request, list, i);
  }

  lemma TargetRecords(request: Request, list: seq<Inconsistency>, i: nat)
    requires i < |request.required|
    ensures var base := Inconsistency(RequiredPackageBase, Some(i), request.required[i].packageBase);
      var name := Inconsistency(RequiredPackage, Some(i), request.required[i].packageName);
      list + TargetInconsistencies(request.required[i], i)
      == WithRecord(request, WithRecord(request, list, base), name)
  {
  }

  lemma RecordsMore(request: Request, base: seq<Inconsistency>, n: nat)
    requires n < |request.required|
    ensures base + RequiredInconsistencies(request, n + 1)
      == base + RequiredInconsistencies(request, n) + TargetInconsistencies(request.required[n], n)
  {
    assert base + (RequiredInconsistencies(request, n) + TargetInconsistencies(request.required[n], n))
      == base + RequiredInconsistencies(request, n) + TargetInconsistencies(request.required[n], n);
  }

  ghost predicate TargetsReported(request: Request, n: nat) {
    && n <= |request.required|
    && ReportsBefore(request, BaseInconsistencies(request) + RequiredInconsistencies(request, n), 1 + 2 * n)
  }

  lemma {:induction false} TargetsAreReported(request: Request, n: nat)
    requires n <= |request.required|
    ensures TargetsReported(request, n)
  {
    if n == 0 {
      BaseIsReported(request);
    } else {
      TargetsAreReported(request, n - 1);
      NextIsReported(request, n);
    }
  }

  lemma NextIsReported(request: Request, n: nat)
    requires 0 < n <= |request.required| && TargetsReported(request, n - 1)
    ensures TargetsReported(request, n)
  {
    var base := BaseInconsistencies(request);
    RecordsMore(request, base, n - 1);
    TargetIsReported(
      request, base + RequiredInconsistencies(request, n - 1), base + RequiredInconsistencies(request, n), n);
  }

  lemma BaseIsReported(request: Request)
    ensures TargetsReported(request, 0)
  {
    assert ReportsBefore(request, [], 0);
    OneReported(request, [], Inconsistency(PackageBase, None, request.packageBase), 0);
    assert BaseInconsistencies(request)
      == WithRecord(request, [], Inconsistency(PackageBase, None, request.packageBase));
    assert BaseInconsistencies(request) + [] == BaseInconsistencies(request);
  }

  ghost predicate ArtifactsReported(request: Request, list: seq<Inconsistency>, n: nat) {
    && n <= |request.produced|
    && ReportsBefore(request, list + ProducedInconsistencies(request, n), 1 + 2 * |request.required| + n)
  }

  lemma NoArtifactsReported(request: Request, list: seq<Inconsistency>)
    requires ReportsBefore(request, list, 1 + 2 * |request.required|)
    ensures ArtifactsReported(request, list, 0)
  {
    assert list + [] == list;
  }

  lemma {:induction false} ArtifactsAreReported(request: Request, list: seq<Inconsistency>, n: nat)
    requires n <= |request.produced| && ReportsBefore(request, list, 1 + 2 * |request.required|)
    ensures ArtifactsReported(request, list, n)
  {
    if n == 0 {
      NoArtifactsReported(request, list);
    } else {
      ArtifactsAreReported(request, list, n - 1);
      ArtifactIsReported(request, list, n);
    }
  }

  lemma ArtifactIsReported(request: Request, list: seq<Inconsistency>, n: nat)
    requires 0 < n <= |request.produced| && ArtifactsReported(request, list, n - 1)
    ensures ArtifactsReported(request, list, n)
  {
    var r := Inconsistency(ProducedPackage, Some(n - 1), request.produced[n - 1]);
    ArtifactPlace(request, n - 1);
    OneReported(request, list + ProducedInconsistencies(request, n - 1), r, 1 + 2 * |request.required| + n - 1);
    ArtifactRecords(request, list, n - 1);
  }

  lemma ArtifactRecords(request: Request, list: seq<Inconsistency>, n: nat)
    requires n < |request.produced|
    ensures list + ProducedInconsistencies(request, n + 1)
      == WithRecord(
           request, list + ProducedInconsistencies(request, n),
           Inconsistency(ProducedPackage, Some(n), request.produced[n]))
  {
  }

  /** The reported identities are the invalid ones, in the order of their places. */
  lemma InconsistenciesMean(request: Request)
    ensures var list := Diagnosis(request).inconsistencies;
      && (forall r :: r in list <==> IsInconsistencyRecord(request, r))
      && (forall a, b | 0 <= a < b < |list| :: PlaceOf(request, list[a]) < PlaceOf(request, list[b]))
  {
    var targets := BaseInconsistencies(request) + RequiredInconsistencies(request, |request.required|);
    TargetsAreReported(request, |request.required|);
    ArtifactsAreReported(request, targets, |request.produced|);
  }

  // ----- repeated artifacts -----

  /** The artifact repeats the first one of its valid name. */
  ghost predicate IsRepeatRecord(request: Request, r: DuplicateProduced) {
    && r.first < r.duplicate < |request.produced| && IsValidPackageName(r.packageName)
    && request.produced[r.first] == r.packageName == request.produced[r.duplicate]
    && forall a | 0 <= a < r.first :: request.produced[a] != r.packageName
  }

  ghost function RepeatKey(): DuplicateProduced -> nat { (r: DuplicateProduced) => r.duplicate }

  ghost function RepeatIn(request: Request): DuplicateProduced -> bool { r => IsRepeatRecord(request, r) }

  ghost function RepeatAt(request: Request, i: nat): seq<DuplicateProduced>
    requires i < |request.produced|
  {
    if RepeatsArtifact(request, i) then [DuplicateProduced(FirstArtifact(request, i), i, request.produced[i])] else []
  }

  lemma RepeatAtMeans(request: Request, i: nat, r: DuplicateProduced)
    requires i < |request.produced|
    ensures r in RepeatAt(request, i) <==> r.duplicate == i && IsRepeatRecord(request, r)
  {
    var first := FirstArtifact(request, i);
    if r.duplicate == i && IsRepeatRecord(request, r) {
      assert request.produced[r.first] == request.produced[i];
      assert r.first == first;
      assert r == DuplicateProduced(first, i, request.produced[i]);
    }
  }

  lemma RepeatIsAt(request: Request, i: nat)
    requires i < |request.produced|
    ensures AreAt(RepeatAt(request, i), RepeatKey(), RepeatIn(request), i)
  {
    forall r ensures r in RepeatAt(request, i) <==> r.duplicate == i && IsRepeatRecord(request, r) {
      RepeatAtMeans(request, i, r);
    }
  }

  ghost predicate RepeatsAreListed(request: Request, n: nat) {
    n <= |request.produced| && Lists(DuplicateProducedUpTo(request, n), RepeatKey(), RepeatIn(request), n)
  }

  lemma RepeatsMeanFirst(request: Request)
    ensures RepeatsAreListed(request, 0)
  {
    NoneListed(RepeatKey(), RepeatIn(request));
  }

  lemma RepeatsMeanFurther(request: Request, n: nat)
    requires 0 < n <= |request.produced| && RepeatsAreListed(request, n - 1)
    ensures RepeatsAreListed(request, n)
  {
    RepeatIsAt(request, n - 1);
    ListsMore(
      DuplicateProducedUpTo(request, n - 1), RepeatAt(request, n - 1), DuplicateProducedUpTo(request, n), RepeatKey(),
      RepeatIn(request), n);
  }

  lemma {:induction false} RepeatsMean(request: Request, n: nat)
    requires n <= |request.produced|
    ensures RepeatsAreListed(request, n)
  {
    if n == 0 {
      RepeatsMeanFirst(request);
    } else {
      RepeatsMean(request, n - 1);
      RepeatsMeanFurther(request, n);
    }
  }

  // ----- groups -----

  /** The good targets of one name, more than one, in their order. */
  ghost predicate IsGroupOf(request: Request, packageName: string, indices: seq<nat>) {
    && |indices| > 1 && Ascending(indices)
    && forall j: nat :: j in indices <==> IsGood(request, j) && request.required[j].packageName == packageName
  }

  ghost predicate HaveReason(request: Request, indices: seq<nat>, reason: Reason) {
    forall j | j in indices :: j < |request.required| && request.required[j].reason == reason
  }

  ghost predicate IsDuplicateRecord(request: Request, r: DuplicateRequired) {
    IsGroupOf(request, r.packageName, r.indices) && HaveReason(request, r.indices, r.reason)
  }

  ghost function IndicesOf(occurrences: seq<Occurrence>): seq<nat> {
    seq(|occurrences|, k requires 0 <= k < |occurrences| => occurrences[k].requiredIndex)
  }

  ghost predicate IsConflictRecord(request: Request, r: ReasonConflict) {
    && IsGroupOf(request, r.packageName, IndicesOf(r.occurrences))
    && (forall k | 0 <= k < |r.occurrences| ::
          && r.occurrences[k].requiredIndex < |request.required|
          && r.occurrences[k].reason == request.required[r.occurrences[k].requiredIndex].reason)
    && exists k | 0 <= k < |r.occurrences| :: r.occurrences[k].reason != r.occurrences[0].reason
  }

  /** A leader's group with another member is the group of its name. */
  lemma LeaderHasGroup(request: Request, i: nat)
    requires Leads(request, i) && !IsAlone(request, i)
    ensures IsGroupOf(request, request.required[i].packageName, Group(request, i)) && Group(request, i)[0] == i
  {
    GroupExact(request, i, |request.required|);
    GroupSize(request, i);
    AgreementMeans(request, i);
    forall j: nat ensures ConsistentAt(request, j) <==> IsGood(request, j) {
      GoodMeans(request, j);
    }
  }

  /** And every group is that of the leader it begins with. */
  lemma GroupHasLeader(request: Request, packageName: string, indices: seq<nat>)
    requires IsGroupOf(request, packageName, indices)
    ensures var i := indices[0];
      && Leads(request, i) && !IsAlone(request, i) && request.required[i].packageName == packageName
      && Group(request, i) == indices
  {
    var i := indices[0];
    forall j: nat ensures ConsistentAt(request, j) <==> IsGood(request, j) {
      GoodMeans(request, j);
    }
    assert i in indices && indices[1] in indices;
    forall j | 0 <= j < i ensures !SameName(request, i, j) {
      assert SameName(request, i, j) ==> j in indices;
    }
    assert SameName(request, i, indices[1]);
    LeaderHasGroup(request, i);
    SameMembers(Group(request, i), indices);
  }

  lemma LastIsGreatest(a: seq<nat>)
    requires Ascending(a) && a != []
    ensures var last := a[|a| - 1];
      && last in a && forall j: nat :: (j in a ==> j <= last) && (j in a[..|a| - 1] <==> j in a && j < last)
  {
  }

  lemma {:induction false} SameMembers(a: seq<nat>, b: seq<nat>)
    requires Ascending(a) && Ascending(b) && forall j: nat :: j in a <==> j in b
    ensures a == b
    decreases |a|
  {
    assert b != [] ==> b[0] in b;
    if a != [] {
      var x, y := |a| - 1, |b| - 1;
      assert a[x] in a && b != [];
      LastIsGreatest(a);
      LastIsGreatest(b);
      assert a[x] == b[y];
      forall j: nat ensures j in a[..x] <==> j in b[..y] {
        assert j in a <==> j in b;
      }
      SameMembers(a[..x], b[..y]);
      assert a == a[..x] + [a[x]] && b == b[..y] + [b[y]];
    }
  }

  lemma DuplicateAtMeans(request: Request, i: nat, r: DuplicateRequired)
    requires i < |request.required|
    ensures r in DuplicateAt(request, i) <==> r.indices != [] && r.indices[0] == i && IsDuplicateRecord(request, r)
  {
    if LeadsDuplicates(request, i) {
      LeaderHasGroup(request, i);
      GroupExact(request, i, |request.required|);
    }
    if r.indices != [] && r.indices[0] == i && IsDuplicateRecord(request, r) {
      GroupHasLeader(request, r.packageName, r.indices);
      GroupExact(request, i, |request.required|);
      assert i in r.indices;
      forall j | 0 <= j < |request.required| && SameName(request, i, j)
        ensures request.required[j].reason == request.required[i].reason
      {
        assert j in r.indices;
      }
    }
  }

  lemma ConflictAtMeans(request: Request, i: nat, r: ReasonConflict)
    requires i < |request.required|
    ensures r in ConflictAt(request, i) <==>
      r.occurrences != [] && r.occurrences[0].requiredIndex == i && IsConflictRecord(request, r)
  {
    var group := Group(request, i);
    var all := Occurrences(request, group);
    assert IndicesOf(all) == group;
    if LeadsConflict(request, i) {
      LeaderHasGroup(request, i);
      AgreementMeans(request, i);
    }
    if r.occurrences != [] && r.occurrences[0].requiredIndex == i && IsConflictRecord(request, r) {
      GroupHasLeader(request, r.packageName, IndicesOf(r.occurrences));
      assert r.occurrences == all;
      AgreementMeans(request, i);
    }
  }

  ghost function DuplicateKey(): DuplicateRequired -> nat {
    (r: DuplicateRequired) => if r.indices == [] then 0 else r.indices[0]
  }

  ghost function DuplicateIn(request: Request): DuplicateRequired -> bool { r => IsDuplicateRecord(request, r) }

  lemma DuplicateIsAt(request: Request, i: nat)
    requires i < |request.required|
    ensures AreAt(DuplicateAt(request, i), DuplicateKey(), DuplicateIn(request), i)
  {
    forall r ensures r in DuplicateAt(request, i) <==>
      r.indices != [] && r.indices[0] == i && IsDuplicateRecord(request, r)
    {
      DuplicateAtMeans(request, i, r);
    }
  }

  /** The duplicates reported are the groups whose reasons all agree, by their leaders. */
  ghost predicate DuplicatesAreListed(request: Request, n: nat) {
    n <= |request.required| && Lists(DuplicateRequiredUpTo(request, n), DuplicateKey(), DuplicateIn(request), n)
  }

  lemma DuplicatesMeanFirst(request: Request)
    ensures DuplicatesAreListed(request, 0)
  {
    NoneListed(DuplicateKey(), DuplicateIn(request));
  }

  lemma DuplicatesMeanOnward(request: Request, n: nat)
    requires 0 < n <= |request.required|
    ensures DuplicateRequiredUpTo(request, n) == DuplicateRequiredUpTo(request, n - 1) + DuplicateAt(request, n - 1)
  {
  }

  lemma DuplicatesMeanFurther(request: Request, n: nat)
    requires 0 < n <= |request.required| && DuplicatesAreListed(request, n - 1)
    ensures DuplicatesAreListed(request, n)
  {
    DuplicatesMeanOnward(request, n);
    DuplicateIsAt(request, n - 1);
    ListsMore(
      DuplicateRequiredUpTo(request, n - 1), DuplicateAt(request, n - 1), DuplicateRequiredUpTo(request, n),
      DuplicateKey(), DuplicateIn(request), n);
  }

  lemma {:induction false} DuplicatesMean(request: Request, n: nat)
    requires n <= |request.required|
    ensures DuplicatesAreListed(request, n)
  {
    if n == 0 {
      DuplicatesMeanFirst(request);
    } else {
      DuplicatesMean(request, n - 1);
      DuplicatesMeanFurther(request, n);
    }
  }

  ghost function ConflictKey(): ReasonConflict -> nat {
    (r: ReasonConflict) => if r.occurrences == [] then 0 else r.occurrences[0].requiredIndex
  }

  ghost function ConflictIn(request: Request): ReasonConflict -> bool { r => IsConflictRecord(request, r) }

  lemma ConflictIsAt(request: Request, i: nat)
    requires i < |request.required|
    ensures AreAt(ConflictAt(request, i), ConflictKey(), ConflictIn(request), i)
  {
    forall r ensures r in ConflictAt(request, i) <==>
      r.occurrences != [] && r.occurrences[0].requiredIndex == i && IsConflictRecord(request, r)
    {
      ConflictAtMeans(request, i, r);
    }
  }

  /** The conflicts reported are the groups whose reasons do not all agree. */
  ghost predicate ConflictsAreListed(request: Request, n: nat) {
    n <= |request.required| && Lists(ReasonConflictsUpTo(request, n), ConflictKey(), ConflictIn(request), n)
  }

  lemma ConflictsMeanFirst(request: Request)
    ensures ConflictsAreListed(request, 0)
  {
    NoneListed(ConflictKey(), ConflictIn(request));
  }

  lemma ConflictsMeanOnward(request: Request, n: nat)
    requires 0 < n <= |request.required|
    ensures ReasonConflictsUpTo(request, n) == ReasonConflictsUpTo(request, n - 1) + ConflictAt(request, n - 1)
  {
  }

  lemma ConflictsMeanFurther(request: Request, n: nat)
    requires 0 < n <= |request.required| && ConflictsAreListed(request, n - 1)
    ensures ConflictsAreListed(request, n)
  {
    ConflictsMeanOnward(request, n);
    ConflictIsAt(request, n - 1);
    ListsMore(
      ReasonConflictsUpTo(request, n - 1), ConflictAt(request, n - 1), ReasonConflictsUpTo(request, n),
      ConflictKey(), ConflictIn(request), n);
  }

  lemma {:induction false} ConflictsMean(request: Request, n: nat)
    requires n <= |request.required|
    ensures ConflictsAreListed(request, n)
  {
    if n == 0 {
      ConflictsMeanFirst(request);
    } else {
      ConflictsMean(request, n - 1);
      ConflictsMeanFurther(request, n);
    }
  }

  // ----- artifacts that are left -----

  /** A single target has the artifact's name, which no other artifact has. */
  ghost predicate IsTakenArtifact(request: Request, a: int) {
    && IsProducedOnce(request, a)
    && exists i :: IsSingle(request, i) && request.required[i].packageName == request.produced[a]
  }

  /** The names are those of the artifacts that are not taken, in their order. */
  ghost predicate IsLeft(request: Request, n: nat, names: seq<string>, indices: seq<nat>) {
    && n <= |request.produced| && Ascending(indices) && |indices| == |names|
    && (forall a: nat :: a in indices <==> a < n && !IsTakenArtifact(request, a))
    && forall k | 0 <= k < |indices| :: indices[k] < n && names[k] == request.produced[indices[k]]
  }

  lemma OneLeft(request: Request, n: nat, names: seq<string>, indices: seq<nat>)
    requires n < |request.produced| && IsLeft(request, n, names, indices) && !IsTakenArtifact(request, n)
    ensures IsLeft(request, n + 1, names + [request.produced[n]], indices + [n])
  {
    AscendingMore(indices, n);
  }

  lemma {:induction false} LeftMeans(request: Request, n: nat) returns (indices: seq<nat>)
    requires n <= |request.produced|
    ensures IsLeft(request, n, UnselectedUpTo(request, n), indices)
  {
    if n == 0 {
      indices := [];
    } else {
      var before := LeftMeans(request, n - 1);
      TakenMeans(request, n - 1);
      if IsTakenArtifact(request, n - 1) {
        assert UnselectedUpTo(request, n - 1) + [] == UnselectedUpTo(request, n - 1);
        indices := before;
      } else {
        OneLeft(request, n - 1, UnselectedUpTo(request, n - 1), before);
        indices := before + [n - 1];
      }
    }
  }

  lemma TakenMeans(request: Request, a: nat)
    ensures IsSelectedArtifact(request, a) <==> IsTakenArtifact(request, a)
  {
    forall i: nat ensures Matches(request, i, a) <==>
      && IsSingle(request, i) && IsProducedOnce(request, a)
      && request.produced[a] == request.required[i].packageName
    {
      MatchesMeans(request, i, a);
    }
    if IsTakenArtifact(request, a) {
      var i :| IsSingle(request, i) && request.required[i].packageName == request.produced[a];
      assert Matches(request, i, a);
    }
  }

  // ----- the whole diagnosis -----

  /** The records of one list, without repetition and in order. */
  ghost predicate AreExactly<T(!new)>(list: seq<T>, key: T -> nat, isRecord: T -> bool) {
    && (forall r :: r in list <==> isRecord(r))
    && (forall a, b | 0 <= a < b < |list| :: key(list[a]) < key(list[b]))
  }

  lemma ListedAreExact<T(!new)>(list: seq<T>, key: T -> nat, isRecord: T -> bool, n: nat)
    requires Lists(list, key, isRecord, n) && forall r | isRecord(r) :: key(r) < n
    ensures AreExactly(list, key, isRecord)
  {
  }

  lemma TargetRecordsMean(request: Request)
    ensures var d := Diagnosis(request);
      && AreExactly(d.missing, MissingKey(), MissingIn(request))
      && AreExactly(d.unknownReasons, UnknownKey(), UnknownIn(request))
      && AreExactly(d.attributionMismatches, MismatchKey(), MismatchIn(request))
      && AreExactly(d.partialMatches, MatchKey(), MatchIn(request))
  {
    var n := |request.required|;
    MissingMeans(request, n);
    ListedAreExact(MissingUpTo(request, n), MissingKey(), MissingIn(request), n);
    UnknownsMean(request, n);
    ListedAreExact(UnknownReasonsUpTo(request, n), UnknownKey(), UnknownIn(request), n);
    MismatchesMean(request, n);
    ListedAreExact(MismatchesUpTo(request, n), MismatchKey(), MismatchIn(request), n);
    MatchRecordsMean(request, n);
    ListedAreExact(MatchesUpTo(request, n), MatchKey(), MatchIn(request), n);
  }

  lemma GroupRecordsMean(request: Request)
    ensures var d := Diagnosis(request);
      && AreExactly(d.duplicateRequired, DuplicateKey(), DuplicateIn(request))
      && AreExactly(d.reasonConflicts, ConflictKey(), ConflictIn(request))
  {
    var n := |request.required|;
    forall r | IsDuplicateRecord(request, r) ensures DuplicateKey()(r) < n {
      assert r.indices[0] in r.indices;
    }
    DuplicatesMean(request, n);
    ListedAreExact(DuplicateRequiredUpTo(request, n), DuplicateKey(), DuplicateIn(request), n);
    ConflictsMean(request, n);
    ListedAreExact(ReasonConflictsUpTo(request, n), ConflictKey(), ConflictIn(request), n);
  }

  lemma ArtifactRecordsMean(request: Request) returns (left: seq<nat>)
    ensures var d := Diagnosis(request);
      && AreExactly(d.duplicateProduced, RepeatKey(), RepeatIn(request))
      && IsLeft(request, |request.produced|, d.unselected, left)
  {
    var n := |request.produced|;
    RepeatsMean(request, n);
    ListedAreExact(DuplicateProducedUpTo(request, n), RepeatKey(), RepeatIn(request), n);
    left := LeftMeans(request, n);
  }

  /** What a diagnosis reports: of the targets, of their groups and of the artifacts exactly
      the records the conditions above describe, each list in its order. */
  ghost predicate IsDiagnosis(request: Request, d: Failure) {
    && d.packageBase == request.packageBase
    && AreExactly(d.missing, MissingKey(), MissingIn(request))
    && AreExactly(d.unknownReasons, UnknownKey(), UnknownIn(request))
    && AreExactly(d.attributionMismatches, MismatchKey(), MismatchIn(request))
    && AreExactly(d.partialMatches, MatchKey(), MatchIn(request))
    && AreExactly(d.duplicateRequired, DuplicateKey(), DuplicateIn(request))
    && AreExactly(d.reasonConflicts, ConflictKey(), ConflictIn(request))
    && AreExactly(d.duplicateProduced, RepeatKey(), RepeatIn(request))
    && (exists left :: IsLeft(request, |request.produced|, d.unselected, left))
    && AreInPlace(request, d.inconsistencies)
  }

  ghost predicate AreInPlace(request: Request, list: seq<Inconsistency>) {
    && (forall r :: r in list <==> IsInconsistencyRecord(request, r))
    && (forall a, b | 0 <= a < b < |list| :: PlaceOf(request, list[a]) < PlaceOf(request, list[b]))
  }

  lemma DiagnosisMeans(request: Request)
    ensures IsDiagnosis(request, Diagnosis(request))
  {
    TargetRecordsMean(request);
    GroupRecordsMean(request);
    var left := ArtifactRecordsMean(request);
    InconsistenciesMean(request);
  }

  // ----- success -----

  /** What a request must ask for: single targets, and among the artifacts, which differ,
      one for each. */
  ghost predicate CanBeMet(request: Request) {
    && IsValidPackageName(request.packageBase)
    && (forall i | 0 <= i < |request.required| :: IsSingle(request, i))
    && (forall a | 0 <= a < |request.produced| :: IsProducedOnce(request, a))
    && (forall i | 0 <= i < |request.required| :: request.required[i].packageName in request.produced)
  }

  lemma CanBeMetMeans(request: Request)
    ensures IsSatisfiable(request) <==> CanBeMet(request)
  {
    if IsSatisfiable(request) {
      forall i | 0 <= i < |request.required| ensures IsSingle(request, i) {
        GoodMeans(request, i);
      }
    }
    if CanBeMet(request) {
      forall i | 0 <= i < |request.required| ensures IsConsistent(request, request.required[i]) {
        assert IsSingle(request, i);
        GoodMeans(request, i);
      }
      forall i, j | 0 <= i < j < |request.required|
        ensures request.required[i].packageName != request.required[j].packageName
      {
        assert IsSingle(request, i) && IsSingle(request, j);
      }
      forall a, b | 0 <= a < b < |request.produced| ensures request.produced[a] != request.produced[b] {
        assert IsProducedOnce(request, a);
      }
      forall a | 0 <= a < |request.produced| ensures IsValidPackageName(request.produced[a]) {
        assert IsProducedOnce(request, a);
      }
    }
  }

  /** A selection that succeeds takes each target's artifact with the target's reason,
      in their order, and leaves the rest in theirs. */
  lemma SuccessMeans(request: Request)
    ensures SelectionResult(request).Success? <==> CanBeMet(request)
    ensures var r := SelectionResult(request);
      r.Success? ==>
        && r.packageBase == request.packageBase && |r.selected| == |request.required|
        && (forall i | 0 <= i < |r.selected| ::
              && r.selected[i].artifact == request.required[i].packageName
              && r.selected[i].reason == request.required[i].reason)
        && exists left :: IsLeft(request, |request.produced|, r.unselected, left)
  {
    CanBeMetMeans(request);
    SelectionSucceedsExactly(request);
    if IsSatisfiable(request) {
      SuccessSelectsEverything(request);
      var left := LeftMeans(request, |request.produced|);
      assert SelectionResult(request).unselected == Diagnosis(request).unselected;
    }
  }

  // ----- what a correlation that succeeds holds -----

  ghost predicate IsNamed(required: seq<Target>, name: string) {
    exists i | 0 <= i < |required| :: required[i].packageName == name
  }

  /** For every target the place of the one identity with its name. */
  ghost predicate HoldsTargets(
    required: seq<Target>, entries: seq<IndexedIdentity>, selected: seq<CorrelatedSelected>)
  {
    && |selected| == |required|
    && forall i | 0 <= i < |required| ::
         var p := selected[i].artifactIndex;
         && p < |entries| && selected[i].identity == entries[p].identity
         && entries[p].identity.packageName == required[i].packageName && selected[i].reason == required[i].reason
         && forall q | 0 <= q < |entries| && q != p :: entries[q].identity.packageName != required[i].packageName
  }

  /** The identities that no target names, in the order of their places. */
  ghost predicate HoldsTheRest(
    required: seq<Target>, entries: seq<IndexedIdentity>, unselected: seq<CorrelatedUnselected>)
  {
    && (forall i, j | 0 <= i < j < |unselected| :: unselected[i].artifactIndex < unselected[j].artifactIndex)
    && (forall u | u in unselected ::
          && u.artifactIndex < |entries| && u.identity == entries[u.artifactIndex].identity
          && !IsNamed(required, u.identity.packageName))
    && forall p: nat | p < |entries| && !IsNamed(required, entries[p].identity.packageName) ::
         CorrelatedUnselected(p, entries[p].identity) in unselected
  }

  /** Correlation succeeds exactly when the request can be met, and then holds every
      identity once, at its own place. */
  lemma CorrelatedMeans(packageBase: string, required: seq<Target>, entries: seq<IndexedIdentity>)
    requires forall p | 0 <= p < |entries| :: entries[p].artifactIndex == p
    ensures var r := CorrelationOf(packageBase, required, entries);
      && (r.Correlated? <==> CanBeMet(Request(packageBase, required, NamesOf(entries))))
      && (r.Uncorrelated? <==> !r.Correlated?)
      && (r.Correlated? ==>
            && r.packageBase == packageBase && HoldsTargets(required, entries, r.selected)
            && HoldsTheRest(required, entries, r.unselected))
  {
    var request := Request(packageBase, required, NamesOf(entries));
    CanBeMetMeans(request);
    SelectionSucceedsExactly(request);
    if CorrelationOf(packageBase, required, entries).Correlated? {
      CorrelationPartitions(packageBase, required, entries);
      TargetsAreHeld(packageBase, required, entries);
      RestIsHeld(packageBase, required, entries);
    }
  }

  lemma TargetsAreHeld(packageBase: string, required: seq<Target>, entries: seq<IndexedIdentity>)
    requires forall p | 0 <= p < |entries| :: entries[p].artifactIndex == p
    requires CorrelationOf(packageBase, required, entries).Correlated?
    ensures HoldsTargets(required, entries, CorrelationOf(packageBase, required, entries).selected)
  {
    var request := Request(packageBase, required, NamesOf(entries));
    var selected := CorrelationOf(packageBase, required, entries).selected;
    CorrelationPartitions(packageBase, required, entries);
    SelectionSucceedsExactly(request);
    forall i, q | 0 <= i < |required| && 0 <= q < |entries| && q != selected[i].artifactIndex
      ensures entries[q].identity.packageName != required[i].packageName
    {
      assert request.produced[q] == entries[q].identity.packageName;
      var p := selected[i].artifactIndex;
      assert request.produced[p] == entries[p].identity.packageName == required[i].packageName;
      assert p < q ==> request.produced[p] != request.produced[q];
      assert q < p ==> request.produced[q] != request.produced[p];
    }
  }

  /** The places are those of identities that no target names. */
  ghost predicate AreUnnamed(required: seq<Target>, entries: seq<IndexedIdentity>, places: seq<nat>) {
    forall p: nat :: p in places <==> p < |entries| && !IsNamed(required, entries[p].identity.packageName)
  }

  lemma RestHolds(
    required: seq<Target>, entries: seq<IndexedIdentity>, unselected: seq<CorrelatedUnselected>, places: seq<nat>)
    requires |places| == |unselected| && Ascending(places) && AreUnnamed(required, entries, places)
    requires forall i | 0 <= i < |unselected| ::
      && unselected[i].artifactIndex == places[i] < |entries| && unselected[i].identity == entries[places[i]].identity
    ensures HoldsTheRest(required, entries, unselected)
  {
    forall i, j | 0 <= i < j < |unselected| ensures unselected[i].artifactIndex < unselected[j].artifactIndex {
      assert places[i] < places[j];
    }
    forall i | 0 <= i < |unselected| ensures !IsNamed(required, unselected[i].identity.packageName) {
      assert places[i] in places;
    }
    forall p: nat | p < |entries| && !IsNamed(required, entries[p].identity.packageName)
      ensures CorrelatedUnselected(p, entries[p].identity) in unselected
    {
      assert p in places;
      var i :| 0 <= i < |places| && places[i] == p;
      assert unselected[i] == CorrelatedUnselected(p, entries[p].identity);
    }
  }

  lemma RestIsHeld(packageBase: string, required: seq<Target>, entries: seq<IndexedIdentity>)
    requires forall p | 0 <= p < |entries| :: entries[p].artifactIndex == p
    requires CorrelationOf(packageBase, required, entries).Correlated?
    ensures HoldsTheRest(required, entries, CorrelationOf(packageBase, required, entries).unselected)
  {
    var request := Request(packageBase, required, NamesOf(entries));
    var unselected := RestEntries(request, entries, |entries|);
    RestEntriesComeFrom(request, entries, |entries|);
    RestIndicesExact(request, entries, |entries|);
    assert AreUnnamed(required, entries, UnselectedIndices(unselected));
    RestHolds(required, entries, unselected, UnselectedIndices(unselected));
  }

  // ----- what a failed correlation hands on -----

  /** Lists that are handed on as they are. */
  ghost predicate HandsOn(d: Failure, f: ProjectedFailure) {
    && f.packageBase == d.packageBase && f.unselected == d.unselected && f.missing == d.missing
    && f.duplicateRequired == d.duplicateRequired && f.reasonConflicts == d.reasonConflicts
    && f.attributionMismatches == d.attributionMismatches && f.unknownReasons == d.unknownReasons
  }

  /** Matches without the artifact's index, repetitions by their name alone, and invalid
      identities with the index of a target but not of an artifact. */
  ghost predicate HandsOnFields(d: Failure, f: ProjectedFailure) {
    && |f.partialMatches| == |d.partialMatches| && |f.duplicateProduced| == |d.duplicateProduced|
    && |f.inconsistencies| == |d.inconsistencies|
    && (forall k | 0 <= k < |d.partialMatches| ::
          && f.partialMatches[k].requiredIndex == d.partialMatches[k].requiredIndex
          && f.partialMatches[k].artifact == d.partialMatches[k].artifact
          && f.partialMatches[k].reason == d.partialMatches[k].reason)
    && (forall k | 0 <= k < |d.duplicateProduced| :: f.duplicateProduced[k] == d.duplicateProduced[k].packageName)
    && (forall k | 0 <= k < |d.inconsistencies| ::
          && f.inconsistencies[k].input == d.inconsistencies[k].input
          && f.inconsistencies[k].identity == d.inconsistencies[k].identity
          && f.inconsistencies[k].requiredIndex
             == match d.inconsistencies[k].input
                case RequiredPackageBase => d.inconsistencies[k].index
                case RequiredPackage => d.inconsistencies[k].index
                case PackageBase => None
                case ProducedPackage => None)
  }

  ghost predicate ReportsSomething(f: ProjectedFailure) {
    |f.missing| + |f.duplicateProduced| + |f.duplicateRequired| + |f.reasonConflicts| + |f.attributionMismatches|
    + |f.inconsistencies| + |f.unknownReasons| > 0
  }

  /** A correlation that fails hands on the diagnosis of its request, and never an empty
      one. */
  lemma FailureMeans(packageBase: string, required: seq<Target>, entries: seq<IndexedIdentity>)
    requires CorrelationOf(packageBase, required, entries).Uncorrelated?
    ensures var f := CorrelationOf(packageBase, required, entries).failure;
      var request := Request(packageBase, required, NamesOf(entries));
      ReportsSomething(f) && exists d :: IsDiagnosis(request, d) && HandsOn(d, f) && HandsOnFields(d, f)
  {
    var f := CorrelationOf(packageBase, required, entries).failure;
    var request := Request(packageBase, required, NamesOf(entries));
    var d := Diagnosis(request);
    DiagnosisMeans(request);
    HandedOn(d);
    assert f == Projected(d);
  }

  lemma HandedOn(d: Failure)
    ensures HandsOn(d, Projected(d)) && HandsOnFields(d, Projected(d))
    ensures HasFailures(d) <==> ReportsSomething(Projected(d))
  {
  }

  /** Two good targets of one name with different reasons always come back in one
      conflict. */
  lemma ConflictIsHandedOn(
    packageBase: string, required: seq<Target>, entries: seq<IndexedIdentity>, i: nat, j: nat)
    requires var request := Request(packageBase, required, NamesOf(entries));
      && IsGood(request, i) && IsGood(request, j) && required[i].packageName == required[j].packageName
      && required[i].reason != required[j].reason
    ensures var r := CorrelationOf(packageBase, required, entries);
      && r.Uncorrelated?
      && exists c | c in r.failure.reasonConflicts ::
           && c.packageName == required[i].packageName
           && i in IndicesOf(c.occurrences) && j in IndicesOf(c.occurrences)
  {
    var request := Request(packageBase, required, NamesOf(entries));
    SelectionSucceedsExactly(request);
    var d := Diagnosis(request);
    GroupRecordsMean(request);
    var c := ConflictOf(request, i, j);
    assert ConflictIn(request)(c);
    assert c in d.reasonConflicts;
    HandedOn(d);
    assert SelectionResult(request).Failed?;
  }

  lemma ConflictOf(request: Request, i: nat, j: nat) returns (c: ReasonConflict)
    requires IsGood(request, i) && IsGood(request, j)
    requires request.required[i].packageName == request.required[j].packageName
    requires request.required[i].reason != request.required[j].reason
    ensures IsConflictRecord(request, c) && c.packageName == request.required[i].packageName
    ensures i in IndicesOf(c.occurrences) && j in IndicesOf(c.occurrences)
  {
    GoodMeans(request, i);
    GoodMeans(request, j);
    var leader := LeaderOf(request, i);
    assert SameName(request, leader, i) && SameName(request, leader, j);
    LeaderHasGroup(request, leader);
    AgreementMeans(request, leader);
    c := ReasonConflict(request.required[leader].packageName, Occurrences(request, Group(request, leader)));
    assert IndicesOf(c.occurrences) == Group(request, leader);
  }

  lemma LeaderOf(request: Request, i: nat) returns (leader: nat)
    requires IsGood(request, i)
    ensures Leads(request, leader) && SameName(request, leader, i) && SameName(request, i, leader)
  {
    GoodMeans(request, i);
    leader := HasLeader(request, i, i);
  }
}
