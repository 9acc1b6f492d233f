/**
 The snapshot of an AUR update once more, told from the fields of its targets, issues
 and blockers: what every accepted target is, and which blocker names which target.
 */
module PreflightConditions {
  import opened Wrappers
  import opened PackageIdentifier
  import opened UpdatePreflight

  // ----- issues -----

  /** A named package and base, no role of the root, and the index its relation goes by. */
  ghost predicate IsSoundBlocker(b: Blocker) {
    && |b.packageName| > 0 && b.packageBase.Some? && |b.packageBase.value| > 0
    && Root !in b.roles && (|b.roles| == 0 ==> b.relation == IdentityDrift)
    && (b.relation in {AurExactDependency, AurProvider, RepositoryExactDependency, RepositoryProvider} ==>
          b.dependencyEdgeIndex.Some?)
    && (b.relation == RequiredArtifactChild ==> b.buildPlanOrderIndex.Some?)
    && (b.relation == IdentityDrift ==> b.dependencyEdgeIndex.Some? || b.buildPlanOrderIndex.Some?)
  }

  /** Two reasons, and no others, come with a reason to check; one of them with a blocker
      that repeats it. */
  ghost predicate IsSoundIssue(issue: Issue) {
    && (issue.checkReason.Some? <==> issue.reason in {DevelRequiresCheck, RequiredDevelTargetRequiresCheck})
    && (issue.blocker.Some? <==> issue.reason == RequiredDevelTargetRequiresCheck)
    && (issue.blocker.Some? ==>
          IsSoundBlocker(issue.blocker.value) && Some(issue.blocker.value.checkReason) == issue.checkReason)
  }

  lemma IssueMeans(issue: Issue)
    ensures HasValidPayload(issue) <==> IsSoundIssue(issue)
  {
    if issue.blocker.Some? {
      var b := issue.blocker.value;
      assert Root in b.roles <==> exists i | 0 <= i < |b.roles| :: b.roles[i].Root?;
    }
  }

  // ----- skipped targets -----

  /** The AUR's version is the installed one or older. */
  ghost predicate OffersNothingNewer(u: Update) {
    && u.classification == ClassifiedUpToDate && u.aurPackage.Some?
    && u.aurPackage.value.relation != NewerThanInstalled && u.aurPackage.value.relation != RelationUnavailable
  }

  /** The package is the only one that its base installed. */
  ghost predicate IsOnlyChild(u: Update) {
    && u.devel.Some? && u.aurPackage.Some? && u.devel.value.base == u.aurPackage.value.base
    && |u.devel.value.children| == 1 && u.devel.value.children[0] == u.installedName
  }

  /** Only its name makes the package look like a development package. */
  ghost predicate IsSuspectedByName(u: Update) {
    && IsOnlyChild(u) && u.devel.value.hasCandidate
    && u.devel.value.evidence == SuffixCandidate && u.devel.value.disposition == DispositionRequiresCheck
    && u.devel.value.trustedMetadata == 0 && u.devel.value.confirmations == 0
    && u.assessment == RequiresCheck(SuffixCandidateOnly)
  }

  ghost predicate IsNoDevelPackage(u: Update) {
    && IsOnlyChild(u) && !u.devel.value.hasCandidate
    && u.devel.value.evidence == Normal && u.devel.value.disposition == DispositionNotApplicable
    && u.assessment == NotApplicable
  }

  ghost predicate IsUpToDateUpdate(u: Update) {
    && OffersNothingNewer(u)
    && match u.origin
       case DisabledByPolicy =>
         u.installedName == u.aurPackage.value.name && (IsSuspectedByName(u) || IsNoDevelPackage(u))
       case CurrentObservation => u.assessment == NotApplicable || u.assessment == AssessedUpToDate
       case Conservative => u.assessment == NotApplicable
  }

  ghost predicate IsForeignUpdate(u: Update) {
    u.classification == ClassifiedNonAurForeign && u.aurPackage == None && u.assessment == NotApplicable
  }

  ghost predicate IsTheOne(issues: seq<Issue>, k: int, reason: Reason) {
    0 <= k < |issues| && forall i | 0 <= i < |issues| :: issues[i].reason == reason <==> i == k
  }

  /** One issue has the reason; all others have none, and none of them has anything else. */
  ghost predicate GivesOneReason(issues: seq<Issue>, reason: Reason) {
    && (forall issue | issue in issues ::
          && issue.reason in {NoReason, reason} && issue.checkReason == None && issue.blocker == None
          && issue.dependency == None && !issue.hasProjectionIssue && !issue.hasRelationReason)
    && exists k :: IsTheOne(issues, k, reason)
  }

  /** The only issue asks for a check of just this package. */
  ghost predicate AsksForCheck(u: Update, issues: seq<Issue>) {
    && |issues| == 1 && u.aurPackage.Some?
    && var issue := issues[0];
       && issue.reason == DevelRequiresCheck && issue.packageName == Some(u.installedName)
       && issue.packageBase == Some(u.aurPackage.value.base) && |issue.diagnostic| > 0
       && issue.dependency == None && issue.blocker == None
       && !issue.hasProjectionIssue && !issue.hasRelationReason
       && issue.checkReason.Some? && u.assessment == RequiresCheck(issue.checkReason.value)
  }

  /** Well-named, with both versions known and nothing newer, and to be checked because
      of what was observed now or, conservatively, because of its name. */
  ghost predicate IsCheckUpdate(u: Update) {
    && OffersNothingNewer(u) && u.installedName == u.aurPackage.value.name
    && IsValidPackageName(u.installedName) && IsValidPackageName(u.aurPackage.value.base)
    && |u.installedVersion| > 0 && |u.aurPackage.value.version| > 0
    && (u.origin == CurrentObservation || (u.origin == Conservative && IsSuspectedByName(u)))
  }

  ghost predicate IsSoundSkip(t: Target, policy: Policy) {
    && t.buildPlanRootIndex == None && !t.hasDesiredReason && t.skipKind.Some?
    && match t.skipKind.value
       case SkipUpToDate => GivesOneReason(t.issues, UpToDate) && IsUpToDateUpdate(t.update)
       case SkipNonAurForeign => GivesOneReason(t.issues, NonAurForeign) && IsForeignUpdate(t.update)
       case _ =>
         policy == SkipIndependentTarget && AsksForCheck(t.update, t.issues) && IsCheckUpdate(t.update)
  }

  /** A target is skipped exactly when it says as what, and one that is to be executed has
      no issues. */
  ghost predicate IsSoundTarget(t: Target, policy: Policy) {
    && (forall issue | issue in t.issues :: IsSoundIssue(issue))
    && (t.skipKind.Some? <==> t.status == Skipped)
    && (t.status == Executable ==> |t.issues| == 0)
    && (t.skipKind.Some? ==> IsSoundSkip(t, policy))
  }

  lemma OneReasonMeans(issues: seq<Issue>, reason: Reason)
    requires reason != NoReason
    ensures HaveOneReason(issues, reason) <==> GivesOneReason(issues, reason)
  {
    if HaveOneReason(issues, reason) {
      var k :| 0 <= k < |issues| && IsOnly(issues, k, reason);
      assert IsTheOne(issues, k, reason);
    }
    if GivesOneReason(issues, reason) {
      var k :| IsTheOne(issues, k, reason);
      forall i | 0 <= i < |issues|
        ensures IsPlain(issues[i]) && (issues[i].reason.NoReason? || issues[i].reason == reason)
      {
        assert issues[i] in issues;
      }
      assert IsOnly(issues, k, reason);
    }
  }

  lemma UpToDateMeans(u: Update)
    ensures MatchesNormalSkip(u, SkipUpToDate) <==> IsUpToDateUpdate(u)
  {
    if u.aurPackage.Some? && u.devel.Some? {
      var d := u.devel.value;
      assert d.children == [u.installedName] <==> |d.children| == 1 && d.children[0] == u.installedName;
    }
  }

  lemma ForeignMeans(u: Update)
    ensures MatchesNormalSkip(u, SkipNonAurForeign) <==> IsForeignUpdate(u)
  {
  }

  lemma CheckMeans(u: Update, reason: CheckReason)
    ensures HasValidIdentity(u, reason) <==> IsCheckUpdate(u) && u.assessment == RequiresCheck(reason)
  {
    if u.aurPackage.Some? && u.devel.Some? {
      var d := u.devel.value;
      assert d.children == [u.installedName] <==> |d.children| == 1 && d.children[0] == u.installedName;
    }
  }

  lemma DevelSkipMeans(t: Target, policy: Policy, kind: SkipKind)
    requires kind == IndependentDevelRequiresCheck || kind == RequiredDevelRequiresCheck
    ensures IsDevelSkip(t.update, t.issues, t.skipKind, policy, kind) <==>
      && t.skipKind == Some(kind) && policy == SkipIndependentTarget
      && AsksForCheck(t.update, t.issues) && IsCheckUpdate(t.update)
  {
    if |t.issues| == 1 && t.issues[0].checkReason.Some? {
      CheckMeans(t.update, t.issues[0].checkReason.value);
    }
  }

  lemma NormalSkipMeans(t: Target)
    ensures IsNormalSkip(t.update, t.issues, t.skipKind) <==>
      || (t.skipKind == Some(SkipUpToDate) && GivesOneReason(t.issues, UpToDate) && IsUpToDateUpdate(t.update))
      || (t.skipKind == Some(SkipNonAurForeign) && GivesOneReason(t.issues, NonAurForeign)
          && IsForeignUpdate(t.update))
  {
    OneReasonMeans(t.issues, UpToDate);
    OneReasonMeans(t.issues, NonAurForeign);
    UpToDateMeans(t.update);
    ForeignMeans(t.update);
  }

  lemma IssuesMean(issues: seq<Issue>)
    ensures (forall i | 0 <= i < |issues| :: HasValidPayload(issues[i])) <==>
      forall issue | issue in issues :: IsSoundIssue(issue)
  {
    forall i | 0 <= i < |issues| ensures HasValidPayload(issues[i]) <==> IsSoundIssue(issues[i]) {
      IssueMeans(issues[i]);
    }
    if forall issue | issue in issues :: IsSoundIssue(issue) {
      forall i | 0 <= i < |issues| ensures HasValidPayload(issues[i]) {
        assert issues[i] in issues;
      }
    }
  }

  lemma TargetMeans(t: Target, policy: Policy)
    ensures IsValidTarget(t, policy) <==> IsSoundTarget(t, policy)
  {
    IssuesMean(t.issues);
    NormalSkipMeans(t);
    DevelSkipMeans(t, policy, IndependentDevelRequiresCheck);
    DevelSkipMeans(t, policy, RequiredDevelRequiresCheck);
  }

  // ----- blockers and the targets they name -----

  /** The first child of the name has the version. */
  ghost predicate FirstHasVersion(children: seq<(string, string)>, name: string, version: string) {
    exists k | 0 <= k < |children| ::
      children[k] == (name, version) && forall i | 0 <= i < k :: children[i].0 != name
  }

  /** The installed package is being bootstrapped: its provenance is missing, and the
      intent to build it is for just this base, name and version. */
  ghost predicate IsBootstrapped(u: Update) {
    && OffersNothingNewer(u) && u.installedName == u.aurPackage.value.name && u.origin == CurrentObservation
    && u.assessment == RequiresCheck(ProvenanceMissing)
    && u.bootstrap.Some? && u.bootstrap.value.base == u.aurPackage.value.base
    && FirstHasVersion(u.bootstrap.value.children, u.installedName, u.installedVersion)
  }

  lemma {:induction false} SelectedMeans(b: Bootstrap, name: string, n: nat, version: string)
    requires n <= |b.children|
    ensures SelectedChild(b, name, n) == Some(version) <==> FirstHasVersion(b.children[n..], name, version)
    decreases |b.children| - n
  {
    if n < |b.children| {
      var here, rest := b.children[n..], b.children[n + 1..];
      assert here[0] == b.children[n] && here[1..] == rest;
      SelectedMeans(b, name, n + 1, version);
      if here[0].0 != name && FirstHasVersion(rest, name, version) {
        var k :| 0 <= k < |rest| && rest[k] == (name, version) && forall i | 0 <= i < k :: rest[i].0 != name;
        assert here[k + 1] == rest[k];
        forall i | 0 <= i < k + 1 ensures here[i].0 != name {
          assert i > 0 ==> here[i] == rest[i - 1];
        }
      }
      if here[0].0 != name && FirstHasVersion(here, name, version) {
        var k :| 0 <= k < |here| && here[k] == (name, version) && forall i | 0 <= i < k :: here[i].0 != name;
        assert rest[k - 1] == here[k];
        forall i | 0 <= i < k - 1 ensures rest[i].0 != name {
          assert rest[i] == here[i + 1];
        }
      }
    }
  }

  lemma BootstrapMeans(u: Update)
    ensures HasBootstrapIntent(u) <==> IsBootstrapped(u)
  {
    if u.bootstrap.Some? {
      SelectedMeans(u.bootstrap.value, u.installedName, 0, u.installedVersion);
      assert u.bootstrap.value.children[0..] == u.bootstrap.value.children;
    }
  }

  /** The blocker is about the target's entry, package, base and reason to check, and the
      target waits for it: it is skipped for its sake, or is bootstrapped and unfinished. */
  ghost predicate Names(b: Blocker, t: Target) {
    && t.update.aurPackage.Some? && b.updatePlanIndex == t.updatePlanIndex
    && b.packageName == t.update.installedName == t.update.aurPackage.value.name
    && b.packageBase == Some(t.update.aurPackage.value.base)
    && t.update.assessment == RequiresCheck(b.checkReason)
    && (IsBootstrapped(t.update) ==>
          && t.status == Incomplete
          && exists issue | issue in t.issues ::
               issue.reason == DevelRequiresCheck && issue.checkReason == Some(ProvenanceMissing))
    && (!IsBootstrapped(t.update) ==> t.skipKind == Some(RequiredDevelRequiresCheck) && |t.issues| == 1)
  }

  lemma ReferenceMeans(issue: Issue, t: Target)
    requires IsSoundIssue(issue)
    ensures References(issue, t) <==> issue.blocker.Some? && Names(issue.blocker.value, t)
  {
    IssueMeans(issue);
    BootstrapMeans(t.update);
    assert KeepsMissingProvenance(t.issues) <==>
      exists issue | issue in t.issues ::
        issue.reason == DevelRequiresCheck && issue.checkReason == Some(ProvenanceMissing);
  }

  // ----- the whole snapshot -----

  ghost predicate HasBlocker(t: Target, b: Blocker) {
    exists issue | issue in t.issues :: issue.blocker == Some(b)
  }

  ghost predicate NamesJustOne(targets: seq<Target>, b: Blocker) {
    exists t: nat | t < |targets| ::
      Names(b, targets[t]) && forall o | 0 <= o < |targets| && Names(b, targets[o]) :: o == t
  }

  ghost predicate IsNamed(targets: seq<Target>, t: Target) {
    exists o, b | 0 <= o < |targets| && HasBlocker(targets[o], b) :: Names(b, t)
  }

  ghost predicate IsToBeChecked(t: Target) {
    t.skipKind.Some? && t.skipKind.value in {IndependentDevelRequiresCheck, RequiredDevelRequiresCheck}
  }

  ghost predicate HasOwnEntry(targets: seq<Target>, t: nat)
    requires t < |targets|
  {
    forall o | 0 <= o < |targets| && targets[o].updatePlanIndex == targets[t].updatePlanIndex :: o == t
  }

  /** Sound targets, and where independent targets may be skipped: every blocker names
      just one target, and what is skipped to be checked has its own entry and, if it was
      required, a blocker that names it. */
  ghost predicate IsSoundSnapshot(p: Preflight) {
    && p.policy.Some? && (forall t | t in p.targets :: IsSoundTarget(t, p.policy.value))
    && (p.policy == Some(SkipIndependentTarget) ==>
          && (forall o, b | 0 <= o < |p.targets| && HasBlocker(p.targets[o], b) :: NamesJustOne(p.targets, b))
          && forall t: nat | t < |p.targets| && IsToBeChecked(p.targets[t]) ::
               && HasOwnEntry(p.targets, t)
               && (p.targets[t].skipKind == Some(RequiredDevelRequiresCheck) ==> IsNamed(p.targets, p.targets[t])))
  }

  ghost predicate AreSound(targets: seq<Target>) {
    forall t | t in targets :: forall issue | issue in t.issues :: IsSoundIssue(issue)
  }

  lemma SingletonMeans(s: set<nat>)
    ensures |s| == 1 <==> exists x: nat :: x in s && forall y: nat | y in s :: y == x
  {
    if |s| == 1 {
      var x :| x in s;
      assert |s - {x}| == 0;
      assert s == {x};
    }
    if exists x: nat :: x in s && forall y: nat | y in s :: y == x {
      var x: nat :| x in s && forall y: nat | y in s :: y == x;
      assert s == {x};
    }
  }

  lemma JustOneMeans(targets: seq<Target>, issue: Issue)
    requires IsSoundIssue(issue) && issue.blocker.Some?
    ensures |ReferencedBy(issue, targets, |targets|)| == 1 <==> NamesJustOne(targets, issue.blocker.value)
  {
    var named, b := ReferencedBy(issue, targets, |targets|), issue.blocker.value;
    SingletonMeans(named);
    forall t: nat | t < |targets| ensures t in named <==> Names(b, targets[t]) {
      ReferenceMeans(issue, targets[t]);
    }
    if NamesJustOne(targets, b) {
      var t: nat :| t < |targets| && Names(b, targets[t])
        && forall o | 0 <= o < |targets| && Names(b, targets[o]) :: o == t;
      assert t in named && forall y: nat | y in named :: y == t;
    }
  }

  lemma BlockersMean(targets: seq<Target>)
    requires AreSound(targets)
    ensures BlockersResolve(targets) <==>
      forall o, b | 0 <= o < |targets| && HasBlocker(targets[o], b) :: NamesJustOne(targets, b)
  {
    if BlockersResolve(targets) {
      forall o, b | 0 <= o < |targets| && HasBlocker(targets[o], b) ensures NamesJustOne(targets, b) {
        assert targets[o] in targets;
        var issue :| issue in targets[o].issues && issue.blocker == Some(b);
        var i :| 0 <= i < |targets[o].issues| && targets[o].issues[i] == issue;
        assert Resolves(targets, targets[o].issues[i]);
        JustOneMeans(targets, issue);
      }
    }
    if forall o, b | 0 <= o < |targets| && HasBlocker(targets[o], b) :: NamesJustOne(targets, b) {
      forall o, i | 0 <= o < |targets| && 0 <= i < |targets[o].issues|
        ensures Resolves(targets, targets[o].issues[i])
      {
        var issue := targets[o].issues[i];
        assert targets[o] in targets && issue in targets[o].issues;
        if issue.blocker.Some? {
          assert HasBlocker(targets[o], issue.blocker.value);
          JustOneMeans(targets, issue);
        }
      }
    }
  }

  lemma ReferrerMeans(owner: Target, t: Target)
    requires forall issue | issue in owner.issues :: IsSoundIssue(issue)
    ensures IsReferencedFrom(owner, t) <==> exists b | HasBlocker(owner, b) :: Names(b, t)
  {
    if IsReferencedFrom(owner, t) {
      var i :| 0 <= i < |owner.issues| && References(owner.issues[i], t);
      assert owner.issues[i] in owner.issues;
      ReferenceMeans(owner.issues[i], t);
      assert HasBlocker(owner, owner.issues[i].blocker.value);
    }
    if b :| HasBlocker(owner, b) && Names(b, t) {
      var issue :| issue in owner.issues && issue.blocker == Some(b);
      var i :| 0 <= i < |owner.issues| && owner.issues[i] == issue;
      ReferenceMeans(owner.issues[i], t);
    }
  }

  lemma NamedMeans(targets: seq<Target>, t: Target)
    requires AreSound(targets)
    ensures (exists o | 0 <= o < |targets| :: IsReferencedFrom(targets[o], t)) <==> IsNamed(targets, t)
  {
    forall o | 0 <= o < |targets|
      ensures IsReferencedFrom(targets[o], t) <==> exists b | HasBlocker(targets[o], b) :: Names(b, t)
    {
      assert targets[o] in targets;
      ReferrerMeans(targets[o], t);
    }
    if IsNamed(targets, t) {
      var o, b :| 0 <= o < |targets| && HasBlocker(targets[o], b) && Names(b, t);
      assert IsReferencedFrom(targets[o], t);
    }
  }

  lemma OwnEntryMeans(targets: seq<Target>, t: nat)
    requires t < |targets|
    ensures |WithIndex(targets, targets[t].updatePlanIndex, |targets|)| == 1 <==> HasOwnEntry(targets, t)
  {
    var same := WithIndex(targets, targets[t].updatePlanIndex, |targets|);
    SingletonMeans(same);
    assert t in same;
    if HasOwnEntry(targets, t) {
      forall y: nat | y in same ensures y == t {
        assert targets[y].updatePlanIndex == targets[t].updatePlanIndex;
      }
    } else {
      var o: nat :| o < |targets| && targets[o].updatePlanIndex == targets[t].updatePlanIndex && o != t;
      assert o in same;
    }
  }

  lemma ExplainedMeans(targets: seq<Target>, t: nat)
    requires AreSound(targets) && t < |targets|
    ensures IsExplained(targets, t) <==>
      && HasOwnEntry(targets, t)
      && (targets[t].skipKind == Some(RequiredDevelRequiresCheck) ==> IsNamed(targets, targets[t]))
  {
    OwnEntryMeans(targets, t);
    NamedMeans(targets, targets[t]);
  }

  lemma TargetsMean(targets: seq<Target>, policy: Policy)
    ensures AreValid(targets, policy) <==> forall t | t in targets :: IsSoundTarget(t, policy)
    ensures AreValid(targets, policy) ==> AreSound(targets)
  {
    forall t | 0 <= t < |targets| ensures IsValidTarget(targets[t], policy) <==> IsSoundTarget(targets[t], policy) {
      TargetMeans(targets[t], policy);
    }
    if forall t | t in targets :: IsSoundTarget(t, policy) {
      forall t | 0 <= t < |targets| ensures IsValidTarget(targets[t], policy) {
        assert targets[t] in targets;
      }
    }
  }

  /** A snapshot is accepted exactly when it is sound. */
  lemma SnapshotMeans(p: Preflight)
    ensures IsValidSnapshot(p) <==> IsSoundSnapshot(p)
  {
    if p.policy.Some? {
      TargetsMean(p.targets, p.policy.value);
      if AreValid(p.targets, p.policy.value) {
        BlockersMean(p.targets);
        forall t: nat | t < |p.targets| && IsToBeChecked(p.targets[t])
          ensures IsExplained(p.targets, t) <==>
            && HasOwnEntry(p.targets, t)
            && (p.targets[t].skipKind == Some(RequiredDevelRequiresCheck) ==> IsNamed(p.targets, p.targets[t]))
        {
          ExplainedMeans(p.targets, t);
        }
      }
    }
  }

  /** Of what is skipped in an accepted snapshot, the AUR never has a newer version, and
      where it has the package at all it is known how the versions compare. */
  lemma SkippedIsNotNewer(p: Preflight, t: nat)
    requires IsValidSnapshot(p) && t < |p.targets| && p.targets[t].skipKind.Some?
    ensures var u := p.targets[t].update;
      && (u.aurPackage.None? <==> p.targets[t].skipKind == Some(SkipNonAurForeign))
      && (u.aurPackage.Some? ==>
            u.aurPackage.value.relation != NewerThanInstalled && u.aurPackage.value.relation != RelationUnavailable)
  {
    TargetMeans(p.targets[t], p.policy.value);
  }
}
