/**
 The guard of automatic updates once more, told from the characters of a version, the
 fields of a request and the answers of the version comparison.
 */
module GuardConditions {
  import opened Wrappers
  import opened TextLists
  import opened VersionGuard

  // ----- full versions -----

  ghost predicate AreDigits(s: string) {
    |s| > 0 && forall i | 0 <= i < |s| :: 48 <= s[i] as int <= 57
  }

  /** Nothing, or digits and a colon. */
  ghost predicate IsEpoch(s: string) {
    s == "" || (s[|s| - 1] as int == 58 && AreDigits(s[..|s| - 1]))
  }

  /** Visible characters but no colon, slash or hyphen. */
  ghost predicate IsPkgver(s: string) {
    && |s| > 0
    && forall i | 0 <= i < |s| :: var code := s[i] as int; 33 <= code <= 126 && code != 58 && code != 47 && code != 45
  }

  /** Digits, or digits on both sides of a dot. */
  ghost predicate IsRelease(s: string) {
    || AreDigits(s)
    || exists k | 0 <= k < |s| :: s[k] as int == 46 && AreDigits(s[..k]) && AreDigits(s[k + 1..])
  }

  ghost predicate IsMadeOf(text: string, epoch: string, pkgver: string, release: string) {
    && IsEpoch(epoch) && IsPkgver(pkgver) && IsRelease(release)
    && text == epoch + pkgver + "-" + release
  }

  lemma DigitsMean(s: string)
    ensures IsDigits(s) <==> AreDigits(s)
  {
    if IsDigits(s) {
      forall i | 0 <= i < |s| ensures 48 <= s[i] as int <= 57 {
        assert IsDigit(s[i]);
      }
    }
    if AreDigits(s) {
      forall i | 0 <= i < |s| ensures IsDigit(s[i]) {
      }
    }
  }

  lemma PkgverMeans(s: string)
    ensures IsPkgver(s) <==> s != "" && '-' !in s && ArePkgverBytes(s)
  {
    if s != "" && '-' !in s && ArePkgverBytes(s) {
      forall i | 0 <= i < |s| ensures IsPkgverByte(s[i]) && s[i] != '-' {
        assert s[i] in s;
      }
    }
  }

  lemma ReleaseIs(v: Version)
    requires IsVersion(v)
    ensures IsRelease(PkgrelText(v))
  {
    DigitsMean(v.pkgrel);
    if v.subrelease.Some? {
      DigitsMean(v.subrelease.value);
      var text, k := PkgrelText(v), |v.pkgrel|;
      assert text[..k] == v.pkgrel && text[k + 1..] == v.subrelease.value && text[k] == '.';
    }
  }

  lemma ReleaseHas(release: string) returns (pkgrel: string, subrelease: Option<string>)
    requires IsRelease(release)
    ensures IsDigits(pkgrel) && (subrelease.Some? ==> IsDigits(subrelease.value))
    ensures release == if subrelease.Some? then pkgrel + "." + subrelease.value else pkgrel
  {
    if AreDigits(release) {
      DigitsMean(release);
      pkgrel, subrelease := release, None;
    } else {
      var k :| 0 <= k < |release| && release[k] as int == 46 && AreDigits(release[..k]) && AreDigits(release[k + 1..]);
      DigitsMean(release[..k]);
      DigitsMean(release[k + 1..]);
      pkgrel, subrelease := release[..k], Some(release[k + 1..]);
      assert release[k] == '.';
    }
  }

  lemma EpochIs(epoch: Option<string>) returns (text: string)
    requires epoch.Some? ==> IsDigits(epoch.value)
    ensures IsEpoch(text) && text == if epoch.Some? then epoch.value + ":" else ""
  {
    if epoch.Some? {
      DigitsMean(epoch.value);
      text := epoch.value + ":";
      assert text[..|text| - 1] == epoch.value;
    } else {
      text := "";
    }
  }

  lemma EpochHas(text: string) returns (epoch: Option<string>)
    requires IsEpoch(text)
    ensures (epoch.Some? ==> IsDigits(epoch.value)) && text == if epoch.Some? then epoch.value + ":" else ""
  {
    if text == "" {
      epoch := None;
    } else {
      DigitsMean(text[..|text| - 1]);
      epoch := Some(text[..|text| - 1]);
      assert text[|text| - 1] == ':';
    }
  }

  lemma TextIsMade(v: Version) returns (epoch: string)
    requires IsVersion(v)
    ensures IsMadeOf(VersionText(v), epoch, v.pkgver, PkgrelText(v))
  {
    PkgverMeans(v.pkgver);
    ReleaseIs(v);
    epoch := EpochIs(v.epoch);
    assert VersionText(v) == epoch + v.pkgver + "-" + PkgrelText(v);
  }

  lemma MadeIsText(text: string, epoch: string, pkgver: string, release: string) returns (v: Version)
    requires IsMadeOf(text, epoch, pkgver, release)
    ensures IsVersion(v) && VersionText(v) == text
  {
    PkgverMeans(pkgver);
    var number := EpochHas(epoch);
    var pkgrel, subrelease := ReleaseHas(release);
    v := Version(number, pkgver, pkgrel, subrelease);
    assert VersionText(v) == epoch + pkgver + "-" + release;
  }

  /** A full version, character by character. */
  lemma VersionMeans(text: string)
    ensures IsFullVersion(text) <==> exists epoch, pkgver, release :: IsMadeOf(text, epoch, pkgver, release)
  {
    AcceptsExactlyVersions(text);
    if IsFullVersion(text) {
      var v :| IsVersion(v) && VersionText(v) == text;
      var epoch := TextIsMade(v);
    }
    if epoch, pkgver, release :| IsMadeOf(text, epoch, pkgver, release) {
      var v := MadeIsText(text, epoch, pkgver, release);
    }
  }

  // ----- what the guard permits and reports -----

  /** One package is asked for, was meant and was built; a base it names is the one meant. */
  ghost predicate IsTheOneMeant(target: Target, intent: Intent, actual: Artifact) {
    && intent.name == target.name && actual.name == target.name && intent.base == target.base
    && target.expectedVersion == None && actual.base in {BaseAbsent, BaseKnown(target.base)}
  }

  ghost predicate AreFullVersions(versions: seq<string>) {
    forall version | version in versions :: IsFullVersion(version)
  }

  /** What is installed is still what was seen: name, version and, where it was known,
      the reason. */
  ghost predicate IsStillInstalled(intent: Intent, current: Query) {
    && current.Installed? && current.name == intent.name && current.version == intent.installedVersion
    && (intent.reason != InstalledUnknown ==> current.reason == intent.reason) && current.base != BaseMalformed
  }

  ghost predicate IsUpgrade(intent: Intent, actual: Artifact, current: Query, compare: Compare) {
    && current.Installed? && compare(actual.version, current.version) == Greater
    && (compare(actual.version, intent.rpcVersion) == Equal || compare(actual.version, intent.rpcVersion) == Greater)
  }

  /** Without an intent everything is permitted; with one, only an upgrade of what is
      still installed to at least what the AUR showed. */
  lemma PermissionMeans(target: Target, actual: Artifact, current: Query, compare: Compare)
    ensures MayInstall(target, actual, current, compare) <==>
      || target.intent == None
      || (var intent := target.intent.value;
          && IsTheOneMeant(target, intent, actual) && IsStillInstalled(intent, current)
          && AreFullVersions([actual.version, intent.rpcVersion, intent.installedVersion])
          && IsUpgrade(intent, actual, current, compare))
  {
    if target.intent.Some? {
      var intent := target.intent.value;
      var versions := [actual.version, intent.rpcVersion, intent.installedVersion];
      assert AreFullVersions(versions) <==>
        IsFullVersion(versions[0]) && IsFullVersion(versions[1]) && IsFullVersion(versions[2]);
    }
  }

  /** When each kind is the one reported. */
  ghost predicate IsReported(
    kind: FailureKind, intent: Intent, target: Target, actual: Artifact, current: Query, compare: Compare)
  {
    match kind
    case IntentIdentityMismatch => !IsTheOneMeant(target, intent, actual)
    case InstalledObservationFailed => IsTheOneMeant(target, intent, actual) && current == QueryFailed
    case InstalledPackageDisappeared => IsTheOneMeant(target, intent, actual) && current == NotFound
    case InvalidVersionEvidence =>
      && IsTheOneMeant(target, intent, actual) && current.Installed?
      && !AreFullVersions([actual.version, intent.rpcVersion, intent.installedVersion, current.version])
    case InstalledStateDrift =>
      && IsTheOneMeant(target, intent, actual) && current.Installed? && !IsStillInstalled(intent, current)
      && AreFullVersions([actual.version, intent.rpcVersion, intent.installedVersion, current.version])
    case ComparisonUnavailable => false
    case ArtifactNotNewerThanInstalled =>
      && IsTheOneMeant(target, intent, actual) && IsStillInstalled(intent, current)
      && AreFullVersions([actual.version, intent.rpcVersion, intent.installedVersion])
      && compare(actual.version, current.version) != Greater
    case ArtifactBelowObservedRpcVersion =>
      && IsTheOneMeant(target, intent, actual) && IsStillInstalled(intent, current)
      && AreFullVersions([actual.version, intent.rpcVersion, intent.installedVersion])
      && compare(actual.version, current.version) == Greater
      && compare(actual.version, intent.rpcVersion) == Less
  }

  lemma EvidenceMeans(intent: Intent, actual: Artifact, current: Query)
    requires current.Installed?
    ensures HasEvidence(intent, actual, current) <==>
      AreFullVersions([actual.version, intent.rpcVersion, intent.installedVersion, current.version])
    ensures current.version == intent.installedVersion ==>
      (HasEvidence(intent, actual, current) <==>
        AreFullVersions([actual.version, intent.rpcVersion, intent.installedVersion]))
  {
    var versions := [actual.version, intent.rpcVersion, intent.installedVersion, current.version];
    assert AreFullVersions(versions) <==>
      IsFullVersion(versions[0]) && IsFullVersion(versions[1]) && IsFullVersion(versions[2])
      && IsFullVersion(versions[3]);
    assert AreFullVersions(versions[..3]) <==>
      IsFullVersion(versions[0]) && IsFullVersion(versions[1]) && IsFullVersion(versions[2]);
    assert versions[..3] == [actual.version, intent.rpcVersion, intent.installedVersion];
  }

  /** No check before the one that reports the kind finds anything. */
  ghost predicate EarlierPass(
    kind: FailureKind, intent: Intent, target: Target, actual: Artifact, current: Query, compare: Compare)
  {
    forall earlier: FailureKind | Rank(earlier) < Rank(kind) ::
      Passes(earlier, intent, target, actual, current, compare)
  }

  lemma EarlierPassUpTo(
    kind: FailureKind, intent: Intent, target: Target, actual: Artifact, current: Query, compare: Compare)
    ensures EarlierPass(kind, intent, target, actual, current, compare) <==>
      && (kind != IntentIdentityMismatch ==> NamesIntended(target, intent, actual))
      && (kind !in {IntentIdentityMismatch, InstalledObservationFailed} ==> !current.QueryFailed?)
      && (kind !in {IntentIdentityMismatch, InstalledObservationFailed, InstalledPackageDisappeared} ==>
            !current.NotFound?)
      && (kind in {InstalledStateDrift, ComparisonUnavailable, ArtifactNotNewerThanInstalled,
                   ArtifactBelowObservedRpcVersion} ==>
            (current.Installed? ==> HasEvidence(intent, actual, current)))
      && (kind in {ComparisonUnavailable, ArtifactNotNewerThanInstalled, ArtifactBelowObservedRpcVersion} ==>
            (current.Installed? ==> IsAsObserved(intent, current)))
      && (kind == ArtifactBelowObservedRpcVersion ==>
            (current.Installed? ==> compare(actual.version, current.version) == Greater))
  {
    assert Rank(IntentIdentityMismatch) == 0 && Rank(InstalledObservationFailed) == 1;
    assert Rank(InstalledPackageDisappeared) == 2 && Rank(InvalidVersionEvidence) == 3;
    assert Rank(InstalledStateDrift) == 4 && Rank(ComparisonUnavailable) == 5;
    assert Rank(ArtifactNotNewerThanInstalled) == 6 && Rank(ArtifactBelowObservedRpcVersion) == 7;
    if EarlierPass(kind, intent, target, actual, current, compare) {
      assert kind != IntentIdentityMismatch ==>
        Passes(IntentIdentityMismatch, intent, target, actual, current, compare);
    }
  }

  /** Which failure is reported, from the fields alone. */
  lemma ReportMeans(
    kind: FailureKind, intent: Intent, target: Target, actual: Artifact, current: Query, compare: Compare)
    ensures IsFirstFailing(kind, intent, target, actual, current, compare) <==>
      IsReported(kind, intent, target, actual, current, compare)
  {
    EarlierPassUpTo(kind, intent, target, actual, current, compare);
    if current.Installed? {
      EvidenceMeans(intent, actual, current);
    }
  }

  lemma OrderingMeans(versusInstalled: Option<Ordering>, versusRpc: Option<Ordering>)
    ensures var r := EvaluateOrdering(versusInstalled, versusRpc);
      && (r == Some(ComparisonUnavailable) <==> versusInstalled == None || versusRpc == None)
      && (r == Some(ArtifactNotNewerThanInstalled) <==>
            versusRpc.Some? && versusInstalled in {Some(Less), Some(Equal)})
      && (r == Some(ArtifactBelowObservedRpcVersion) <==> versusInstalled == Some(Greater) && versusRpc == Some(Less))
      && (r == None <==> versusInstalled == Some(Greater) && versusRpc in {Some(Equal), Some(Greater)})
  {
  }

  // ----- runs -----

  /** The comparison orders full versions: it answers in reverse when asked in reverse,
      and what is not below goes on being so. */
  lemma OrderMeans(compare: Compare)
    ensures IsVersionOrder(compare) <==>
      && (forall a, b | IsFullVersion(a) && IsFullVersion(b) ::
            && (compare(a, b) == Greater <==> compare(b, a) == Less)
            && (compare(a, b) == Equal <==> compare(b, a) == Equal))
      && (forall a, b, c | IsFullVersion(a) && IsFullVersion(b) && IsFullVersion(c) ::
            compare(a, b) != Less && compare(b, c) != Less ==> compare(a, c) != Less)
  {
    if IsVersionOrder(compare) {
      forall a, b | IsFullVersion(a) && IsFullVersion(b) ensures compare(b, a) == Flip(compare(a, b)) {
      }
      forall a, b, c | IsFullVersion(a) && IsFullVersion(b) && IsFullVersion(c)
        ensures compare(a, b) != Less && compare(b, c) != Less ==> compare(a, c) != Less
      {
        assert AtLeast(compare, a, b) && AtLeast(compare, b, c) ==> AtLeast(compare, a, c);
      }
    }
  }

  /** Each update was permitted for what was installed, by what the one before it left. */
  ghost predicate GoesOn(updates: seq<Update>, compare: Compare) {
    && (forall u | u in updates ::
          u.target.intent.Some? && u.current.Installed? && MayInstall(u.target, u.actual, u.current, compare))
    && forall i | 0 < i < |updates| ::
         updates[i].current.Installed? && updates[i].current.version == updates[i - 1].actual.version
  }

  lemma GoesOnIsRun(updates: seq<Update>, compare: Compare)
    ensures IsRun(updates, compare) <==> GoesOn(updates, compare)
  {
    if GoesOn(updates, compare) {
      forall i | 0 <= i < |updates|
        ensures updates[i].target.intent.Some? && updates[i].current.Installed?
        ensures MayInstall(updates[i].target, updates[i].actual, updates[i].current, compare)
      {
        assert updates[i] in updates;
      }
    }
  }

  lemma VersionsAre(updates: seq<Update>, compare: Compare, i: nat)
    requires IsRun(updates, compare) && i < |updates|
    ensures updates[i].current.Installed? && updates[i].target.intent.Some? && updates[0].current.Installed?
    ensures var versions := InstalledVersions(updates);
      versions[i] == updates[i].current.version && versions[i + 1] == updates[i].actual.version
  {
  }

  /** Whatever is installed by a run of permitted updates is newer than anything that
      was installed at any earlier time of the run, and not below what the AUR showed. */
  lemma InstalledOnlyRises(updates: seq<Update>, compare: Compare, i: nat, j: nat)
    requires IsVersionOrder(compare) && GoesOn(updates, compare) && i <= j < |updates|
    ensures updates[i].current.Installed?
    ensures compare(updates[j].actual.version, updates[i].current.version) == Greater
    ensures updates[j].actual.version != updates[i].current.version
    ensures updates[j].target.intent.Some?
    ensures compare(updates[j].actual.version, updates[j].target.intent.value.rpcVersion) in {Equal, Greater}
  {
    GoesOnIsRun(updates, compare);
    VersionsAre(updates, compare, i);
    VersionsAre(updates, compare, j);
    RunsOnlyGoForward(updates, compare, i, j + 1);
  }

  // ----- install reasons -----

  /** Which directive the install gets, or why it gets none. */
  lemma DirectiveMeans(
    desired: DesiredReason, state: VersionState, existing: Option<ExistingReason>, needed: bool)
    ensures var r := ResolveInstallReason(desired, state, existing, needed);
      && (r == LogicError <==> !(state == NotInstalled <==> existing == None))
      && (r == Resolved(AsDependency) <==>
            state == NotInstalled && existing == None && desired == DesireDependency)
      && (r == Resolved(AsExplicit) <==>
            && desired == DesireExplicit && existing == Some(WasDependency)
            && (state == DifferentVersion || (state == SameVersion && !needed)))
      && (r == CannotChangeReason <==>
            desired == DesireExplicit && existing == Some(WasDependency) && state == SameVersion && needed)
      && (r == Resolved(Default) <==>
            || (state == NotInstalled && existing == None && desired == DesireExplicit)
            || (state != NotInstalled && existing == Some(WasExplicit))
            || (state != NotInstalled && existing == Some(WasDependency) && desired == DesireDependency))
  {
    assert desired.DesireExplicit? || desired.DesireDependency?;
    assert existing.Some? ==> existing.value.WasExplicit? || existing.value.WasDependency?;
  }

  /** An explicit package stays one, and a request makes one unless it would be skipped. */
  lemma RequestMeans(existing: Option<ExistingReason>, request: Request)
    ensures ReasonAfterOne(existing, request)
      == if existing == Some(WasExplicit)
           || (request.desired == DesireExplicit && (existing == None || request.differs || !request.needed)) then
           Some(WasExplicit)
         else Some(WasDependency)
  {
    assert request.desired.DesireExplicit? || request.desired.DesireDependency?;
    assert existing.Some? ==> existing.value.WasExplicit? || existing.value.WasDependency?;
  }

  /** The request is one that cannot be refused. */
  ghost predicate Promotes(existing: Option<ExistingReason>, requests: seq<Request>, i: int) {
    && 0 <= i < |requests| && requests[i].desired == DesireExplicit
    && (requests[i].differs || !requests[i].needed || (i == 0 && existing == None))
  }

  lemma LastRequest(existing: Option<ExistingReason>, requests: seq<Request>, n: nat)
    requires |requests| == n + 1
    ensures (exists i :: Promotes(existing, requests, i)) <==>
      Promotes(existing, requests, n) || exists i :: Promotes(existing, requests[..n], i)
  {
    forall i | 0 <= i < n ensures Promotes(existing, requests, i) <==> Promotes(existing, requests[..n], i) {
    }
  }

  /** Over any requests the package ends up explicit exactly when it was so at first or
      one of them promotes it; and once there is a request it is installed. */
  lemma {:induction false} RequestsMean(existing: Option<ExistingReason>, requests: seq<Request>)
    ensures ReasonAfterAll(existing, requests) == Some(WasExplicit) <==>
      existing == Some(WasExplicit) || exists i :: Promotes(existing, requests, i)
    ensures ReasonAfterAll(existing, requests) == None <==> existing == None && |requests| == 0
  {
    if requests != [] {
      var n := |requests| - 1;
      var fewer := requests[..n];
      RequestsMean(existing, fewer);
      RequestMeans(ReasonAfterAll(existing, fewer), requests[n]);
      LastRequest(existing, requests, n);
    }
  }
}
