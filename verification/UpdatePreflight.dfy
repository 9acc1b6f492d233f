/**
 The snapshot of an AUR update before it is executed: its targets, the issues they
 keep and the blockers by which one target's issue names another target.
 */
module UpdatePreflight {
  import opened Wrappers
  import opened PackageIdentifier

  datatype Policy = BlockOperation | SkipIndependentTarget
  datatype SkipKind = SkipUpToDate | SkipNonAurForeign | IndependentDevelRequiresCheck | RequiredDevelRequiresCheck
  datatype Status = Executable | Skipped | Unsupported | Incomplete

  datatype Relation =
    | AurExactDependency | AurProvider | RepositoryExactDependency | RepositoryProvider
    | RequiredArtifactChild | IdentityDrift

  datatype Role = Root | RuntimeDependency | BuildDependency | CheckDependency

  datatype CheckReason =
    | SuffixCandidateOnly | NoAuthoritativeBuildProvenance | InstalledArtifactDrift | AurRecipeAdvanced
    | SourceMetadataMissing | SourceMetadataMalformed | SourceIdentityChanged | TransportRequiresCheck
    | SelectorRequiresCheck | MultipleFloatingSources | ArchitectureSpecificSourceUnresolved
    | ProvenanceMissing | ProvenanceInvalid | ProvenanceCorrupted | ProvenanceFutureSchema
    | BuildSourceProofUnavailable

  datatype Reason =
    | NoReason | UpToDate | DevelRequiresCheck | DevelObservationUnknown | DevelUnsupported
    | RequiredDevelTargetRequiresCheck | NonAurForeign
    | AurMetadataUnavailable | VersionComparisonUnavailable | InstalledReasonUnknown | UpdatePlanInconsistent
    | DuplicateUpdateTarget | RepositoryMetadataUnavailable | AurDependencyMetadataUnavailable
    | ProviderMetadataUnavailable | UnresolvedDependency | VersionConstraintUnverified | DependencyCycle
    | BuildPlanInconsistent | PackageBaseMismatch | SplitPackageSelectionRequired
    | MultiplePackageTargetsForPackageBase | AmbiguousProvider | ConflictsOrReplacesUnresolved
    | InstalledPackageMetadataUnavailable

  datatype Blocker = Blocker(
    relation: Relation, updatePlanIndex: nat, dependencyEdgeIndex: Option<nat>, buildPlanOrderIndex: Option<nat>,
    packageName: string, packageBase: Option<string>, roles: seq<Role>, checkReason: CheckReason)

  datatype Issue = Issue(
    reason: Reason, packageName: Option<string>, packageBase: Option<string>, dependency: Option<string>,
    diagnostic: string, checkReason: Option<CheckReason>, hasProjectionIssue: bool, hasRelationReason: bool,
    blocker: Option<Blocker>)

  datatype VersionRelation = OlderThanInstalled | SameAsInstalled | NewerThanInstalled | RelationUnavailable
  datatype RemotePackage = RemotePackage(name: string, base: string, version: string, relation: VersionRelation)
  datatype Classification =
    | UpdateAvailable | ClassifiedUpToDate | ClassifiedNonAurForeign | MetadataUnavailable | ComparisonUnavailable
  datatype Origin = Conservative | CurrentObservation | DisabledByPolicy
  datatype Assessment =
    | NotApplicable | AssessedUpdateAvailable | AssessedUpToDate | AssessedUnknown
    | RequiresCheck(checkReason: CheckReason) | AssessedUnsupported
  datatype Evidence = Normal | SuffixCandidate | SourceMetadataConfirmed | BuildSourceConfirmed
  datatype Disposition =
    | DispositionNotApplicable | TrackableCandidate | Fixed | DispositionRequiresCheck | DispositionUnsupported

  /** The last two fields count trusted metadata and successful build confirmations. */
  datatype DevelClassification = DevelClassification(
    evidence: Evidence, disposition: Disposition, base: string, children: seq<string>, hasCandidate: bool,
    trustedMetadata: nat, confirmations: nat)

  datatype Bootstrap = Bootstrap(base: string, children: seq<(string, string)>)

  datatype Update = Update(
    installedName: string, installedVersion: string, aurPackage: Option<RemotePackage>, classification: Classification,
    devel: Option<DevelClassification>, assessment: Assessment, origin: Origin, bootstrap: Option<Bootstrap>)

  datatype Target = Target(
    updatePlanIndex: nat, buildPlanRootIndex: Option<nat>, update: Update, status: Status,
    hasDesiredReason: bool, issues: seq<Issue>, skipKind: Option<SkipKind>)

  datatype Preflight = Preflight(targets: seq<Target>, policy: Option<Policy>)

  // ----- one issue -----

  predicate IsValidBlocker(b: Blocker) {
    && b.packageName != "" && b.packageBase.Some? && b.packageBase.value != ""
    && (b.roles == [] ==> b.relation.IdentityDrift?)
    && (forall i | 0 <= i < |b.roles| :: !b.roles[i].Root?)
    && match b.relation
       case RequiredArtifactChild => b.buildPlanOrderIndex.Some?
       case IdentityDrift => b.dependencyEdgeIndex.Some? || b.buildPlanOrderIndex.Some?
       case _ => b.dependencyEdgeIndex.Some?
  }

  predicate HasValidPayload(issue: Issue) {
    match issue.reason
    case DevelRequiresCheck => issue.checkReason.Some? && issue.blocker.None?
    case RequiredDevelTargetRequiresCheck =>
      && issue.checkReason.Some? && issue.blocker.Some? && IsValidBlocker(issue.blocker.value)
      && issue.blocker.value.checkReason == issue.checkReason.value
    case _ => issue.checkReason.None? && issue.blocker.None?
  }

  // ----- skips that are no update at all -----

  predicate IsPlain(issue: Issue) {
    issue.checkReason.None? && issue.blocker.None? && issue.dependency.None?
    && !issue.hasProjectionIssue && !issue.hasRelationReason
  }

  predicate IsNotNewer(p: RemotePackage) {
    p.relation.OlderThanInstalled? || p.relation.SameAsInstalled?
  }

  predicate HasVersionOnlySnapshot(u: Update) {
    && u.origin.DisabledByPolicy? && u.classification.ClassifiedUpToDate? && u.aurPackage.Some? && u.devel.Some?
    && u.installedName == u.aurPackage.value.name && IsNotNewer(u.aurPackage.value)
    && var d := u.devel.value;
    && d.base == u.aurPackage.value.base && d.children == [u.installedName]
    && if d.evidence.Normal? then
         !d.hasCandidate && d.disposition.DispositionNotApplicable? && u.assessment.NotApplicable?
       else
         && d.evidence.SuffixCandidate? && d.hasCandidate && d.disposition.DispositionRequiresCheck?
         && d.trustedMetadata == 0 && d.confirmations == 0 && u.assessment == RequiresCheck(SuffixCandidateOnly)
  }

  predicate MatchesNormalSkip(u: Update, kind: SkipKind) {
    match kind
    case SkipUpToDate =>
      if u.origin.DisabledByPolicy? then HasVersionOnlySnapshot(u)
      else
        && u.classification.ClassifiedUpToDate? && u.aurPackage.Some? && IsNotNewer(u.aurPackage.value)
        && (u.assessment.NotApplicable? || (u.origin.CurrentObservation? && u.assessment.AssessedUpToDate?))
    case SkipNonAurForeign =>
      u.classification.ClassifiedNonAurForeign? && u.aurPackage.None? && u.assessment.NotApplicable?
    case _ => false
  }

  predicate IsSkipReason(issue: Issue) {
    issue.reason.UpToDate? || issue.reason.NonAurForeign?
  }

  function ReasonOf(kind: SkipKind): Reason {
    match kind
    case SkipUpToDate => UpToDate
    case SkipNonAurForeign => NonAurForeign
    case _ => DevelRequiresCheck
  }

  /** One issue gives the reason of the skip and all others give none. */
  ghost predicate HaveOneReason(issues: seq<Issue>, reason: Reason) {
    && (forall i | 0 <= i < |issues| ::
          IsPlain(issues[i]) && (issues[i].reason.NoReason? || issues[i].reason == reason))
    && exists k | 0 <= k < |issues| :: IsOnly(issues, k, reason)
  }

  ghost predicate IsOnly(issues: seq<Issue>, k: nat, reason: Reason)
    requires k < |issues|
  {
    issues[k].reason == reason && forall i | 0 <= i < |issues| && i != k :: issues[i].reason.NoReason?
  }

  ghost predicate IsNormalSkip(u: Update, issues: seq<Issue>, skipKind: Option<SkipKind>) {
    && (skipKind == Some(SkipUpToDate) || skipKind == Some(SkipNonAurForeign))
    && HaveOneReason(issues, ReasonOf(skipKind.value))
    && MatchesNormalSkip(u, skipKind.value)
  }

  ghost predicate IsOnlySkipReason(issues: seq<Issue>, n: nat, k: nat)
    requires k < n <= |issues|
  {
    IsSkipReason(issues[k]) && forall i | 0 <= i < n && i != k :: issues[i].reason.NoReason?
  }

  /** What the scan has seen: how many skip reasons and whether one of them matches. */
  ghost predicate Counted(issues: seq<Issue>, n: nat, reason: Reason, count: nat, hasMatch: bool)
    requires n <= |issues|
  {
    && (forall i | 0 <= i < n :: IsPlain(issues[i]) && (issues[i].reason.NoReason? || IsSkipReason(issues[i])))
    && (count == 0 ==> !hasMatch && forall i | 0 <= i < n :: issues[i].reason.NoReason?)
    && (count == 1 ==>
          exists k | 0 <= k < n :: IsOnlySkipReason(issues, n, k) && (hasMatch <==> issues[k].reason == reason))
    && (count > 1 ==> exists j, k | 0 <= j < k < n :: IsSkipReason(issues[j]) && IsSkipReason(issues[k]))
  }

  lemma CountedMore(issues: seq<Issue>, n: nat, reason: Reason, count: nat, hasMatch: bool)
    requires n < |issues| && Counted(issues, n, reason, count, hasMatch) && IsPlain(issues[n])
    requires reason.UpToDate? || reason.NonAurForeign?
    ensures issues[n].reason.NoReason? ==> Counted(issues, n + 1, reason, count, hasMatch)
    ensures IsSkipReason(issues[n]) ==>
      Counted(issues, n + 1, reason, count + 1, hasMatch || issues[n].reason == reason)
  {
    if issues[n].reason.NoReason? {
      if count == 1 {
        var k :| 0 <= k < n && IsOnlySkipReason(issues, n, k) && (hasMatch <==> issues[k].reason == reason);
        assert IsOnlySkipReason(issues, n + 1, k);
      }
    } else if IsSkipReason(issues[n]) {
      if count == 0 {
        assert IsOnlySkipReason(issues, n + 1, n);
      } else if count == 1 {
        var k :| 0 <= k < n && IsOnlySkipReason(issues, n, k);
        assert 0 <= k < n < n + 1;
      }
    }
  }

  method IsValidNormalSkipSnapshot(u: Update, issues: seq<Issue>, skipKind: Option<SkipKind>) returns (valid: bool)
    ensures valid <==> IsNormalSkip(u, issues, skipKind)
  {
    if skipKind != Some(SkipUpToDate) && skipKind != Some(SkipNonAurForeign) {
      return false;
    }
    var count, hasMatch := 0, false;
    ghost var reason := ReasonOf(skipKind.value);
    for i := 0 to |issues|
      invariant Counted(issues, i, reason, count, hasMatch)
    {
      if !IsPlain(issues[i]) {
        return false;
      }
      CountedMore(issues, i, reason, count, hasMatch);
      if issues[i].reason.NoReason? {
        continue;
      }
      if issues[i].reason.UpToDate? {
        count, hasMatch := count + 1, hasMatch || skipKind.value.SkipUpToDate?;
        continue;
      }
      if issues[i].reason.NonAurForeign? {
        count, hasMatch := count + 1, hasMatch || skipKind.value.SkipNonAurForeign?;
        continue;
      }
      return false;
    }
    CountMeans(issues, reason, count, hasMatch);
    if count != 1 || !hasMatch {
      return false;
    }
    valid := MatchesNormalSkip(u, skipKind.value);
  }

  lemma CountMeans(issues: seq<Issue>, reason: Reason, count: nat, hasMatch: bool)
    requires Counted(issues, |issues|, reason, count, hasMatch) && (reason.UpToDate? || reason.NonAurForeign?)
    ensures count == 1 && hasMatch <==> HaveOneReason(issues, reason)
  {
    if count == 1 && hasMatch {
      var k :| 0 <= k < |issues| && IsOnlySkipReason(issues, |issues|, k) && issues[k].reason == reason;
      assert IsOnly(issues, k, reason);
    }
    if HaveOneReason(issues, reason) {
      var k :| 0 <= k < |issues| && IsOnly(issues, k, reason);
      assert count == 1 && hasMatch;
    }
  }

  // ----- skips of development packages that must be checked first -----

  predicate HasConsistentProducer(u: Update, reason: CheckReason) {
    if u.origin.CurrentObservation? then
      && u.aurPackage.Some? && u.installedName == u.aurPackage.value.name && u.assessment == RequiresCheck(reason)
    else
      && u.origin.Conservative? && reason.SuffixCandidateOnly? && u.devel.Some?
      && u.assessment == RequiresCheck(reason) && u.aurPackage.Some?
      && var d := u.devel.value;
      && d.evidence.SuffixCandidate? && d.disposition.DispositionRequiresCheck?
      && d.base == u.aurPackage.value.base && d.children == [u.installedName] && d.hasCandidate
      && d.trustedMetadata == 0 && d.confirmations == 0
  }

  predicate HasValidIdentity(u: Update, reason: CheckReason) {
    && u.classification.ClassifiedUpToDate? && u.aurPackage.Some?
    && IsValidPackageName(u.installedName) && u.installedVersion != ""
    && u.installedName == u.aurPackage.value.name && IsValidPackageName(u.aurPackage.value.name)
    && IsValidPackageName(u.aurPackage.value.base) && u.aurPackage.value.version != ""
    && IsNotNewer(u.aurPackage.value) && HasConsistentProducer(u, reason)
  }

  predicate IsDevelSkip(u: Update, issues: seq<Issue>, skipKind: Option<SkipKind>, policy: Policy, expected: SkipKind) {
    && policy.SkipIndependentTarget?
    && (expected.IndependentDevelRequiresCheck? || expected.RequiredDevelRequiresCheck?)
    && skipKind == Some(expected) && |issues| == 1
    && var issue := issues[0];
    && issue.checkReason.Some? && HasValidIdentity(u, issue.checkReason.value)
    && issue.reason.DevelRequiresCheck?
    && issue.packageName == Some(u.installedName) && issue.packageBase == Some(u.aurPackage.value.base)
    && issue.dependency.None? && issue.diagnostic != "" && !issue.hasProjectionIssue && !issue.hasRelationReason
    && issue.blocker.None?
  }

  // ----- one target -----

  ghost predicate IsValidTarget(t: Target, policy: Policy) {
    && (forall i | 0 <= i < |t.issues| :: HasValidPayload(t.issues[i]))
    && match t.status
       case Executable => t.skipKind.None? && t.issues == []
       case Skipped =>
         && t.buildPlanRootIndex.None? && !t.hasDesiredReason
         && (IsNormalSkip(t.update, t.issues, t.skipKind)
             || IsDevelSkip(t.update, t.issues, t.skipKind, policy, IndependentDevelRequiresCheck)
             || IsDevelSkip(t.update, t.issues, t.skipKind, policy, RequiredDevelRequiresCheck))
       case _ => t.skipKind.None?
  }

  method IsValidTargetSkipSnapshot(t: Target, policy: Policy) returns (valid: bool)
    ensures valid <==> IsValidTarget(t, policy)
  {
    if exists i | 0 <= i < |t.issues| :: !HasValidPayload(t.issues[i]) {
      return false;
    }
    match t.status {
      case Executable =>
        return t.skipKind.None? && t.issues == [];
      case Skipped =>
        if t.buildPlanRootIndex.Some? || t.hasDesiredReason {
          return false;
        }
        valid := IsValidNormalSkipSnapshot(t.update, t.issues, t.skipKind);
        valid := valid
          || IsDevelSkip(t.update, t.issues, t.skipKind, policy, IndependentDevelRequiresCheck)
          || IsDevelSkip(t.update, t.issues, t.skipKind, policy, RequiredDevelRequiresCheck);
      case _ =>
        return t.skipKind.None?;
    }
  }

  // ----- blockers -----

  function SelectedChild(b: Bootstrap, name: string, n: nat): Option<string>
    requires n <= |b.children|
    decreases |b.children| - n
  {
    if n == |b.children| then None
    else if b.children[n].0 == name then Some(b.children[n].1)
    else SelectedChild(b, name, n + 1)
  }

  predicate HasBootstrapIntent(u: Update) {
    && u.bootstrap.Some? && u.aurPackage.Some?
    && SelectedChild(u.bootstrap.value, u.installedName, 0) == Some(u.installedVersion)
    && u.bootstrap.value.base == u.aurPackage.value.base
    && u.classification.ClassifiedUpToDate? && u.origin.CurrentObservation?
    && u.assessment == RequiresCheck(ProvenanceMissing)
    && u.installedName == u.aurPackage.value.name && IsNotNewer(u.aurPackage.value)
  }

  predicate KeepsMissingProvenance(issues: seq<Issue>) {
    exists i | 0 <= i < |issues| ::
      issues[i].reason.DevelRequiresCheck? && issues[i].checkReason == Some(ProvenanceMissing)
  }

  /** The blocker of `issue` names `target`. */
  predicate References(issue: Issue, target: Target) {
    && issue.reason.RequiredDevelTargetRequiresCheck? && HasValidPayload(issue) && target.update.aurPackage.Some?
    && (if HasBootstrapIntent(target.update) then target.status.Incomplete? && KeepsMissingProvenance(target.issues)
        else target.skipKind == Some(RequiredDevelRequiresCheck) && |target.issues| == 1)
    && var b := issue.blocker.value;
    && b.updatePlanIndex == target.updatePlanIndex
    && b.packageName == target.update.installedName && b.packageName == target.update.aurPackage.value.name
    && b.packageBase == Some(target.update.aurPackage.value.base)
    && target.update.assessment == RequiresCheck(b.checkReason)
  }

  // ----- the whole snapshot -----

  function ReferencedBy(issue: Issue, targets: seq<Target>, n: nat): set<nat>
    requires n <= |targets|
  {
    set t: nat | t < n && References(issue, targets[t])
  }

  function WithIndex(targets: seq<Target>, index: nat, n: nat): set<nat>
    requires n <= |targets|
  {
    set t: nat | t < n && targets[t].updatePlanIndex == index
  }

  predicate IsDevelSkipped(t: Target) {
    t.skipKind == Some(IndependentDevelRequiresCheck) || t.skipKind == Some(RequiredDevelRequiresCheck)
  }

  predicate IsReferencedFrom(owner: Target, target: Target) {
    exists i | 0 <= i < |owner.issues| :: References(owner.issues[i], target)
  }

  /** If the issue holds a blocker, the blocker names exactly one target. */
  predicate Resolves(targets: seq<Target>, issue: Issue) {
    issue.reason.RequiredDevelTargetRequiresCheck? ==> |ReferencedBy(issue, targets, |targets|)| == 1
  }

  ghost predicate BlockersResolveUpTo(targets: seq<Target>, n: nat)
    requires n <= |targets|
  {
    forall o, i | 0 <= o < n && 0 <= i < |targets[o].issues| :: Resolves(targets, targets[o].issues[i])
  }

  ghost predicate BlockersResolve(targets: seq<Target>) {
    BlockersResolveUpTo(targets, |targets|)
  }

  ghost predicate IsExplained(targets: seq<Target>, t: nat)
    requires t < |targets|
  {
    && |WithIndex(targets, targets[t].updatePlanIndex, |targets|)| == 1
    && (targets[t].skipKind == Some(RequiredDevelRequiresCheck) ==>
          exists o | 0 <= o < |targets| :: IsReferencedFrom(targets[o], targets[t]))
  }

  ghost predicate AreValid(targets: seq<Target>, policy: Policy) {
    forall t {:trigger IsValidTarget(targets[t], policy)} | 0 <= t < |targets| :: IsValidTarget(targets[t], policy)
  }

  /** What the check of a snapshot comes to: the remaining conditions it spells out,
      that no blocker names its own target or an independent skip, follow. */
  ghost predicate IsValidSnapshot(p: Preflight) {
    && p.policy.Some?
    && AreValid(p.targets, p.policy.value)
    && (p.policy.value.SkipIndependentTarget? ==>
          && BlockersResolve(p.targets)
          && forall t: nat | t < |p.targets| && IsDevelSkipped(p.targets[t]) :: IsExplained(p.targets, t))
  }

  // ----- what the checks of single targets already exclude -----

  /** Only a target that is neither done nor skipped can hold a blocker. */
  lemma OwnersAreUnfinished(t: Target, policy: Policy, i: nat)
    requires IsValidTarget(t, policy) && i < |t.issues|
    requires t.issues[i].reason.RequiredDevelTargetRequiresCheck?
    ensures t.status.Unsupported? || t.status.Incomplete?
  {
  }

  lemma DevelSkippedIsSkipped(t: Target, policy: Policy)
    requires IsValidTarget(t, policy) && IsDevelSkipped(t)
    ensures t.status.Skipped? && IsDevelSkip(t.update, t.issues, t.skipKind, policy, t.skipKind.value)
  {
  }

  /** What a blocker can name: a target skipped for its sake, or an unfinished one
      that is being bootstrapped. */
  lemma ReferencedTargets(issue: Issue, t: Target, policy: Policy)
    requires IsValidTarget(t, policy) && References(issue, t)
    ensures if t.skipKind == Some(RequiredDevelRequiresCheck) then t.status.Skipped? && !HasBootstrapIntent(t.update)
      else t.status.Incomplete? && HasBootstrapIntent(t.update) && t.skipKind.None?
  {
    if IsDevelSkipped(t) {
      DevelSkippedIsSkipped(t, policy);
    }
  }

  /** No skipped target is named by an issue of its own. */
  lemma NoSelfReference(t: Target, policy: Policy, i: nat)
    requires IsValidTarget(t, policy) && i < |t.issues| && References(t.issues[i], t)
    ensures HasBootstrapIntent(t.update) && !IsDevelSkipped(t)
  {
    OwnersAreUnfinished(t, policy, i);
    ReferencedTargets(t.issues[i], t, policy);
  }

  // ----- checking the whole snapshot -----

  lemma ReferencedGrows(issue: Issue, targets: seq<Target>, n: nat)
    requires n < |targets|
    ensures ReferencedBy(issue, targets, n + 1) ==
      ReferencedBy(issue, targets, n) + (if References(issue, targets[n]) then {n} else {})
    ensures n !in ReferencedBy(issue, targets, n)
  {
  }

  lemma WithIndexGrows(targets: seq<Target>, index: nat, n: nat)
    requires n < |targets|
    ensures WithIndex(targets, index, n + 1) ==
      WithIndex(targets, index, n) + (if targets[n].updatePlanIndex == index then {n} else {})
    ensures n !in WithIndex(targets, index, n)
  {
  }

  /** What a blocker names is bootstrapped or skipped for its sake, and in the second
      case it is not the target that holds the blocker. */
  lemma OwnerIsNotNamed(targets: seq<Target>, policy: Policy, owner: nat, issue: Issue, t: nat)
    requires owner < |targets| && issue in targets[owner].issues && t < |targets|
    requires AreValid(targets, policy) && References(issue, targets[t])
    ensures HasBootstrapIntent(targets[t].update)
      || (owner != t && targets[t].skipKind == Some(RequiredDevelRequiresCheck))
  {
    assert IsValidTarget(targets[t], policy);
    ReferencedTargets(issue, targets[t], policy);
    if owner == t {
      var i :| 0 <= i < |targets[t].issues| && targets[t].issues[i] == issue;
      NoSelfReference(targets[t], policy, i);
    }
  }

  /** How many targets the issue's blocker names; its owner is never a skipped one
      of them. */
  method CountReferences(targets: seq<Target>, policy: Policy, owner: nat, issue: Issue) returns (count: nat)
    requires owner < |targets| && issue in targets[owner].issues
    requires AreValid(targets, policy)
    ensures count == |ReferencedBy(issue, targets, |targets|)|
  {
    count := 0;
    for t := 0 to |targets|
      invariant count == |ReferencedBy(issue, targets, t)|
    {
      ReferencedGrows(issue, targets, t);
      if References(issue, targets[t]) {
        if !HasBootstrapIntent(targets[t].update)
          && (owner == t || targets[t].skipKind != Some(RequiredDevelRequiresCheck)) {
          OwnerIsNotNamed(targets, policy, owner, issue, t);
          assert false;
        }
        count := count + 1;
      }
    }
  }

  method CheckBlockers(targets: seq<Target>, policy: Policy) returns (valid: bool)
    requires AreValid(targets, policy)
    ensures valid <==> BlockersResolve(targets)
  {
    for o := 0 to |targets|
      invariant BlockersResolveUpTo(targets, o)
    {
      for i := 0 to |targets[o].issues|
        invariant forall k | 0 <= k < i :: Resolves(targets, targets[o].issues[k])
      {
        var issue := targets[o].issues[i];
        if !issue.reason.RequiredDevelTargetRequiresCheck? {
          continue;
        }
        var count := CountReferences(targets, policy, o, issue);
        if count != 1 {
          return false;
        }
      }
    }
    valid := true;
  }

  /** The counts of the last pass for one skipped target: how many targets share its
      index, and whether any blocker names it. */
  method CountOwners(targets: seq<Target>, policy: Policy, t: nat) returns (indexCount: nat, referenceCount: nat)
    requires t < |targets| && IsDevelSkipped(targets[t])
    requires AreValid(targets, policy)
    ensures indexCount == |WithIndex(targets, targets[t].updatePlanIndex, |targets|)|
    ensures referenceCount > 0 <==> exists o | 0 <= o < |targets| :: IsReferencedFrom(targets[o], targets[t])
  {
    indexCount, referenceCount := 0, 0;
    for o := 0 to |targets|
      invariant indexCount == |WithIndex(targets, targets[t].updatePlanIndex, o)|
      invariant referenceCount > 0 <==> exists k | 0 <= k < o :: IsReferencedFrom(targets[k], targets[t])
    {
      WithIndexGrows(targets, targets[t].updatePlanIndex, o);
      if targets[o].updatePlanIndex == targets[t].updatePlanIndex {
        indexCount := indexCount + 1;
      }
      var here := CountFrom(targets[o], targets[t], policy, o == t);
      referenceCount := referenceCount + here;
    }
  }

  method CountFrom(owner: Target, target: Target, policy: Policy, isOwn: bool) returns (count: nat)
    requires isOwn ==> owner == target
    requires IsValidTarget(target, policy) && IsDevelSkipped(target)
    ensures count > 0 <==> IsReferencedFrom(owner, target)
  {
    count := 0;
    for i := 0 to |owner.issues|
      invariant count > 0 <==> exists k | 0 <= k < i :: References(owner.issues[k], target)
    {
      if References(owner.issues[i], target) {
        if isOwn {
          NoSelfReference(target, policy, i);
          assert false;
        }
        count := count + 1;
      }
    }
  }

  method CheckSkipped(targets: seq<Target>, policy: Policy) returns (valid: bool)
    requires AreValid(targets, policy)
    ensures valid <==> forall t: nat | t < |targets| && IsDevelSkipped(targets[t]) :: IsExplained(targets, t)
  {
    for t := 0 to |targets|
      invariant forall k: nat | k < t && IsDevelSkipped(targets[k]) :: IsExplained(targets, k)
    {
      var isIndependent := targets[t].skipKind == Some(IndependentDevelRequiresCheck);
      var isRequired := targets[t].skipKind == Some(RequiredDevelRequiresCheck);
      if !isIndependent && !isRequired {
        continue;
      }
      var indexCount, referenceCount := CountOwners(targets, policy, t);
      if isIndependent && referenceCount != 0 {
        NotNamed(targets, policy, t);
        assert false;
      }
      if indexCount != 1 || (isRequired && referenceCount == 0) {
        return false;
      }
    }
    valid := true;
  }

  /** No blocker names an independent skip. */
  lemma NotNamed(targets: seq<Target>, policy: Policy, t: nat)
    requires t < |targets| && IsValidTarget(targets[t], policy)
    requires targets[t].skipKind == Some(IndependentDevelRequiresCheck)
    ensures forall o | 0 <= o < |targets| :: !IsReferencedFrom(targets[o], targets[t])
  {
    forall o, i | 0 <= o < |targets| && 0 <= i < |targets[o].issues| && References(targets[o].issues[i], targets[t])
      ensures false
    {
      ReferencedTargets(targets[o].issues[i], targets[t], policy);
    }
  }

  method HasValidPolicySnapshot(p: Preflight) returns (valid: bool)
    ensures valid <==> IsValidSnapshot(p)
  {
    if p.policy.None? {
      return false;
    }
    var policy := p.policy.value;
    for t := 0 to |p.targets|
      invariant forall k | 0 <= k < t :: IsValidTarget(p.targets[k], policy)
    {
      var validTarget := IsValidTargetSkipSnapshot(p.targets[t], policy);
      if !validTarget {
        return false;
      }
    }
    if !policy.SkipIndependentTarget? {
      return true;
    }
    valid := CheckBlockers(p.targets, policy);
    if valid {
      valid := CheckSkipped(p.targets, policy);
    }
  }

  // ----- consequences -----

  ghost predicate NamesOnly(targets: seq<Target>, issue: Issue, owner: nat, t: nat)
    requires t < |targets|
  {
    && (forall k | 0 <= k < |targets| :: References(issue, targets[k]) <==> k == t)
    && if targets[t].skipKind == Some(RequiredDevelRequiresCheck) then t != owner
       else targets[t].status.Incomplete? && HasBootstrapIntent(targets[t].update)
  }

  /** Each blocker names exactly one target: another one, skipped for its sake, or an
      unfinished one that is being bootstrapped. */
  lemma BlockerNamesOne(p: Preflight, o: nat, i: nat)
    requires IsValidSnapshot(p) && p.policy == Some(SkipIndependentTarget)
    requires o < |p.targets| && i < |p.targets[o].issues|
    requires p.targets[o].issues[i].reason.RequiredDevelTargetRequiresCheck?
    ensures exists t: nat | t < |p.targets| :: NamesOnly(p.targets, p.targets[o].issues[i], o, t)
  {
    var issue := p.targets[o].issues[i];
    var named := ReferencedBy(issue, p.targets, |p.targets|);
    assert Resolves(p.targets, issue);
    var t :| t in named;
    assert |named - {t}| == 0;
    assert named == {t};
    forall k | 0 <= k < |p.targets| ensures References(issue, p.targets[k]) <==> k == t {
      assert References(issue, p.targets[k]) <==> k in named;
    }
    ReferencedTargets(issue, p.targets[t], SkipIndependentTarget);
    if t == o {
      NoSelfReference(p.targets[t], SkipIndependentTarget, i);
    }
    assert NamesOnly(p.targets, issue, o, t);
  }

  predicate IsNamedByUnfinished(owner: Target, target: Target) {
    IsReferencedFrom(owner, target) && (owner.status.Unsupported? || owner.status.Incomplete?)
  }

  /** Every target skipped because something requires it is named by another target,
      which is Unsupported or Incomplete; and it is no bootstrap. */
  lemma RequiredSkipIsNamed(p: Preflight, t: nat)
    requires IsValidSnapshot(p) && p.policy == Some(SkipIndependentTarget)
    requires t < |p.targets| && p.targets[t].skipKind == Some(RequiredDevelRequiresCheck)
    ensures !HasBootstrapIntent(p.targets[t].update)
    ensures exists o: nat | o < |p.targets| && o != t :: IsNamedByUnfinished(p.targets[o], p.targets[t])
  {
    assert IsExplained(p.targets, t);
    assert IsValidTarget(p.targets[t], SkipIndependentTarget);
    var o :| 0 <= o < |p.targets| && IsReferencedFrom(p.targets[o], p.targets[t]);
    assert IsValidTarget(p.targets[o], SkipIndependentTarget);
    ReferrerIsUnfinished(p.targets[o], p.targets[t]);
  }

  lemma ReferrerIsUnfinished(owner: Target, target: Target)
    requires IsValidTarget(owner, SkipIndependentTarget) && IsValidTarget(target, SkipIndependentTarget)
    requires target.skipKind == Some(RequiredDevelRequiresCheck) && IsReferencedFrom(owner, target)
    ensures IsNamedByUnfinished(owner, target) && owner != target && !HasBootstrapIntent(target.update)
  {
    var i :| 0 <= i < |owner.issues| && References(owner.issues[i], target);
    OwnersAreUnfinished(owner, SkipIndependentTarget, i);
    ReferencedTargets(owner.issues[i], target, SkipIndependentTarget);
  }

  /** So where everything is done or skipped, nothing is skipped as required. */
  lemma FinishedHasNoRequiredSkip(p: Preflight, t: nat)
    requires IsValidSnapshot(p) && t < |p.targets|
    requires forall o | 0 <= o < |p.targets| :: p.targets[o].status.Executable? || p.targets[o].status.Skipped?
    ensures p.targets[t].skipKind != Some(RequiredDevelRequiresCheck)
  {
    assert IsValidTarget(p.targets[t], p.policy.value);
    if p.targets[t].skipKind == Some(RequiredDevelRequiresCheck) {
      DevelSkippedIsSkipped(p.targets[t], p.policy.value);
      RequiredSkipIsNamed(p, t);
    }
  }

  /** Under the blocking policy only targets without an update are skipped. */
  lemma BlockingSkipsOnlyNormal(p: Preflight, t: nat)
    requires IsValidSnapshot(p) && p.policy == Some(BlockOperation) && t < |p.targets| && p.targets[t].skipKind.Some?
    ensures p.targets[t].status.Skipped?
    ensures p.targets[t].skipKind == Some(SkipUpToDate) || p.targets[t].skipKind == Some(SkipNonAurForeign)
  {
    assert IsValidTarget(p.targets[t], BlockOperation);
  }

  /** No two skipped targets stand for the same entry of the update plan, and none
      shares its entry with any other target. */
  lemma SkippedEntriesAreUnique(p: Preflight, t: nat, o: nat)
    requires IsValidSnapshot(p) && p.policy == Some(SkipIndependentTarget)
    requires t < |p.targets| && o < |p.targets| && t != o && IsDevelSkipped(p.targets[t])
    ensures p.targets[o].updatePlanIndex != p.targets[t].updatePlanIndex
  {
    var same := WithIndex(p.targets, p.targets[t].updatePlanIndex, |p.targets|);
    assert IsExplained(p.targets, t) && t in same;
    assert |same - {t}| == 0;
    assert same == {t};
    assert o !in same;
  }
}
