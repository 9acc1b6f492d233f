/**
 The guard of automatic AUR updates: the grammar of a full package version, the
 decision whether an artifact may be installed, and the reason it is installed with.
 The order of versions is libalpm's; only that it is a total preorder is used.
 */
module VersionGuard {
  import opened Wrappers
  import opened TextLists

  // ----- full versions -----

  predicate IsDigits(part: string) {
    part != "" && AllDigits(part)
  }

  predicate IsPkgverByte(c: char) {
    0x21 <= c as int <= 0x7E && c != ':' && c != '/'
  }

  predicate ArePkgverBytes(part: string) {
    forall c | c in part :: IsPkgverByte(c)
  }

  predicate IsPkgrel(pkgrel: string) {
    var subrelease := Find(pkgrel, '.', 0);
    if subrelease == |pkgrel| then IsDigits(pkgrel)
    else IsDigits(pkgrel[..subrelease]) && IsDigits(pkgrel[subrelease + 1..])
  }

  /** The part of a version after its epoch. */
  predicate IsReleasedVersion(version: string) {
    var release := Find(version, '-', 0);
    && release != |version| && release != 0
    && ArePkgverBytes(version[..release]) && IsPkgrel(version[release + 1..])
  }

  predicate IsFullVersion(version: string) {
    var epoch := Find(version, ':', 0);
    if epoch == |version| then IsReleasedVersion(version)
    else IsDigits(version[..epoch]) && IsReleasedVersion(version[epoch + 1..])
  }

  datatype Version = Version(epoch: Option<string>, pkgver: string, pkgrel: string, subrelease: Option<string>)

  predicate IsVersion(v: Version) {
    && (v.epoch.Some? ==> IsDigits(v.epoch.value))
    && v.pkgver != "" && '-' !in v.pkgver && ArePkgverBytes(v.pkgver)
    && IsDigits(v.pkgrel) && (v.subrelease.Some? ==> IsDigits(v.subrelease.value))
  }

  function PkgrelText(v: Version): string {
    if v.subrelease.Some? then v.pkgrel + "." + v.subrelease.value else v.pkgrel
  }

  function ReleasedText(v: Version): string {
    v.pkgver + "-" + PkgrelText(v)
  }

  function VersionText(v: Version): string {
    if v.epoch.Some? then v.epoch.value + ":" + ReleasedText(v) else ReleasedText(v)
  }

  /** The parts of a text that has the grammar's separators. */
  function FactorPkgrel(pkgrel: string): (string, Option<string>) {
    var subrelease := Find(pkgrel, '.', 0);
    if subrelease == |pkgrel| then (pkgrel, None) else (pkgrel[..subrelease], Some(pkgrel[subrelease + 1..]))
  }

  function FactorReleased(epoch: Option<string>, version: string): Version {
    var release := Find(version, '-', 0);
    if release == |version| then Version(epoch, version, "", None)
    else
      var (pkgrel, subrelease) := FactorPkgrel(version[release + 1..]);
      Version(epoch, version[..release], pkgrel, subrelease)
  }

  function Factor(version: string): Version {
    var epoch := Find(version, ':', 0);
    if epoch == |version| then FactorReleased(None, version)
    else FactorReleased(Some(version[..epoch]), version[epoch + 1..])
  }

  lemma FindIn(head: string, c: char, tail: string)
    requires c !in head
    ensures Find(head + [c] + tail, c, 0) == |head|
    ensures (head + [c] + tail)[..|head|] == head && (head + [c] + tail)[|head| + 1..] == tail
  {
    FindIs(head + [c] + tail, c, 0, |head|);
  }

  lemma FindAbsent(text: string, c: char)
    requires c !in text
    ensures Find(text, c, 0) == |text|
  {
    FindIs(text, c, 0, |text|);
  }

  lemma CutAtFind(text: string, c: char)
    ensures var at := Find(text, c, 0); c !in text[..at] && (at < |text| ==> text == text[..at] + [c] + text[at + 1..])
  {
    FindStops(text, c, 0);
    assert text[0..Find(text, c, 0)] == text[..Find(text, c, 0)];
  }

  lemma DigitsHold(part: string, c: char)
    requires IsDigits(part) && !IsDigit(c)
    ensures c !in part
  {
  }

  lemma PkgrelFactors(v: Version)
    requires IsVersion(v)
    ensures FactorPkgrel(PkgrelText(v)) == (v.pkgrel, v.subrelease) && IsPkgrel(PkgrelText(v))
    ensures ':' !in PkgrelText(v)
  {
    DigitsHold(v.pkgrel, '.');
    if v.subrelease.Some? {
      FindIn(v.pkgrel, '.', v.subrelease.value);
    } else {
      FindAbsent(v.pkgrel, '.');
    }
  }

  /** The text of a version is accepted and gives its parts back. */
  lemma VersionFactors(v: Version)
    requires IsVersion(v)
    ensures IsFullVersion(VersionText(v)) && Factor(VersionText(v)) == v
  {
    var text := ReleasedText(v);
    PkgrelFactors(v);
    FindIn(v.pkgver, '-', PkgrelText(v));
    if v.epoch.Some? {
      FindIn(v.epoch.value, ':', text);
    } else {
      FindAbsent(text, ':');
    }
  }

  lemma PkgrelHasParts(pkgrel: string)
    requires IsPkgrel(pkgrel)
    ensures var (release, subrelease) := FactorPkgrel(pkgrel);
      && IsDigits(release) && (subrelease.Some? ==> IsDigits(subrelease.value))
      && pkgrel == if subrelease.Some? then release + "." + subrelease.value else release
  {
    CutAtFind(pkgrel, '.');
  }

  lemma ReleasedHasParts(epoch: Option<string>, version: string)
    requires IsReleasedVersion(version) && (epoch.Some? ==> IsDigits(epoch.value))
    ensures IsVersion(FactorReleased(epoch, version)) && ReleasedText(FactorReleased(epoch, version)) == version
    ensures FactorReleased(epoch, version).epoch == epoch
  {
    CutAtFind(version, '-');
    PkgrelHasParts(version[Find(version, '-', 0) + 1..]);
  }

  /** Exactly the texts `[digits:]pkgver-digits[.digits]` are accepted, and each of
      them in one way only. */
  lemma AcceptsExactlyVersions(text: string)
    ensures IsFullVersion(text) <==> exists v :: IsVersion(v) && VersionText(v) == text
    ensures forall v, w :: IsVersion(v) && IsVersion(w) && VersionText(v) == text && VersionText(w) == text ==> v == w
  {
    if IsFullVersion(text) {
      var epoch := Find(text, ':', 0);
      CutAtFind(text, ':');
      if epoch == |text| {
        ReleasedHasParts(None, text);
      } else {
        ReleasedHasParts(Some(text[..epoch]), text[epoch + 1..]);
      }
      assert VersionText(Factor(text)) == text;
    }
    forall v | IsVersion(v) && VersionText(v) == text ensures IsFullVersion(text) && Factor(text) == v {
      VersionFactors(v);
    }
  }

  // ----- the guard -----

  datatype Ordering = Less | Equal | Greater

  datatype FailureKind =
    | IntentIdentityMismatch | InstalledObservationFailed | InstalledPackageDisappeared | InvalidVersionEvidence
    | InstalledStateDrift | ComparisonUnavailable | ArtifactNotNewerThanInstalled | ArtifactBelowObservedRpcVersion

  datatype InstalledReason = InstalledExplicit | InstalledDependency | InstalledUnknown

  /** Metadata that may be absent or malformed. */
  datatype BaseValue = BaseAbsent | BaseMalformed | BaseKnown(base: string)

  datatype Intent = Intent(
    base: string, name: string, rpcVersion: string, installedVersion: string, reason: InstalledReason)
  datatype Target = Target(base: string, name: string, expectedVersion: Option<string>, intent: Option<Intent>)
  datatype Artifact = Artifact(name: string, base: BaseValue, version: string)
  datatype Query =
    | QueryFailed | NotFound
    | Installed(name: string, version: string, reason: InstalledReason, base: BaseValue)

  datatype Failure = Failure(
    kind: FailureKind, base: string, name: string, rpcVersion: string, observedVersion: string, artifactVersion: string,
    freshVersion: Option<string>)

  function EvaluateOrdering(versusInstalled: Option<Ordering>, versusRpc: Option<Ordering>): Option<FailureKind> {
    if versusInstalled.None? || versusRpc.None? then Some(ComparisonUnavailable)
    else if versusInstalled.value != Greater then Some(ArtifactNotNewerThanInstalled)
    else if versusRpc.value == Less then Some(ArtifactBelowObservedRpcVersion)
    else None
  }

  predicate NamesIntended(target: Target, intent: Intent, actual: Artifact) {
    && target.expectedVersion.None? && intent.base == target.base && intent.name == target.name
    && actual.name == target.name && !actual.base.BaseMalformed?
    && (actual.base.BaseKnown? ==> actual.base.base == intent.base)
  }

  predicate HasEvidence(intent: Intent, actual: Artifact, current: Query)
    requires current.Installed?
  {
    IsFullVersion(actual.version) && IsFullVersion(intent.rpcVersion)
    && IsFullVersion(intent.installedVersion) && IsFullVersion(current.version)
  }

  predicate IsAsObserved(intent: Intent, current: Query)
    requires current.Installed?
  {
    && current.name == intent.name && current.version == intent.installedVersion
    && (intent.reason.InstalledUnknown? || current.reason == intent.reason) && !current.base.BaseMalformed?
  }

  type Compare = (string, string) -> Ordering

  /** The artifact may be installed without being asked for. */
  predicate MayInstall(target: Target, actual: Artifact, current: Query, compare: Compare) {
    target.intent.Some? ==>
      && NamesIntended(target, target.intent.value, actual) && current.Installed?
      && HasEvidence(target.intent.value, actual, current) && IsAsObserved(target.intent.value, current)
      && compare(actual.version, current.version) == Greater
      && compare(actual.version, target.intent.value.rpcVersion) != Less
  }

  /** The checks in the order in which they are made, each by what it reports. */
  function Rank(kind: FailureKind): nat {
    match kind
    case IntentIdentityMismatch => 0
    case InstalledObservationFailed => 1
    case InstalledPackageDisappeared => 2
    case InvalidVersionEvidence => 3
    case InstalledStateDrift => 4
    case ComparisonUnavailable => 5
    case ArtifactNotNewerThanInstalled => 6
    case ArtifactBelowObservedRpcVersion => 7
  }

  /** The check that reports `kind` finds nothing to report. */
  ghost predicate Passes(
    kind: FailureKind, intent: Intent, target: Target, actual: Artifact, current: Query, compare: Compare)
  {
    match kind
    case IntentIdentityMismatch => NamesIntended(target, intent, actual)
    case InstalledObservationFailed => !current.QueryFailed?
    case InstalledPackageDisappeared => !current.NotFound?
    case InvalidVersionEvidence => current.Installed? ==> HasEvidence(intent, actual, current)
    case InstalledStateDrift => current.Installed? ==> IsAsObserved(intent, current)
    case ComparisonUnavailable => true
    case ArtifactNotNewerThanInstalled => current.Installed? ==> compare(actual.version, current.version) == Greater
    case ArtifactBelowObservedRpcVersion => compare(actual.version, intent.rpcVersion) != Less
  }

  ghost predicate IsFirstFailing(
    kind: FailureKind, intent: Intent, target: Target, actual: Artifact, current: Query, compare: Compare)
  {
    && !Passes(kind, intent, target, actual, current, compare)
    && forall earlier: FailureKind | Rank(earlier) < Rank(kind) ::
         Passes(earlier, intent, target, actual, current, compare)
  }

  ghost function FirstFailing(
    intent: Intent, target: Target, actual: Artifact, current: Query, compare: Compare): Option<FailureKind>
  {
    if !NamesIntended(target, intent, actual) then Some(IntentIdentityMismatch)
    else if current.QueryFailed? then Some(InstalledObservationFailed)
    else if current.NotFound? then Some(InstalledPackageDisappeared)
    else if !HasEvidence(intent, actual, current) then Some(InvalidVersionEvidence)
    else if !IsAsObserved(intent, current) then Some(InstalledStateDrift)
    else
      EvaluateOrdering(
        Some(compare(actual.version, current.version)), Some(compare(actual.version, intent.rpcVersion)))
  }

  lemma FirstFailingIsFirst(intent: Intent, target: Target, actual: Artifact, current: Query, compare: Compare)
    ensures var first := FirstFailing(intent, target, actual, current, compare);
      && (first.Some? ==> IsFirstFailing(first.value, intent, target, actual, current, compare))
      && (first.None? <==> MayInstall(target.(intent := Some(intent)), actual, current, compare))
  {
  }

  /** The kind reported is the first check that fails. */
  method ValidateAutomaticInstall(target: Target, actual: Artifact, current: Query, compare: Compare)
    returns (failure: Option<Failure>)
    ensures failure.None? <==> MayInstall(target, actual, current, compare)
    ensures failure.Some? ==>
      && target.intent.Some?
      && IsFirstFailing(failure.value.kind, target.intent.value, target, actual, current, compare)
    ensures failure.Some? ==>
      && failure.value.base == target.base && failure.value.name == target.name
      && failure.value.artifactVersion == actual.version && failure.value.rpcVersion == target.intent.value.rpcVersion
      && failure.value.observedVersion == target.intent.value.installedVersion
    ensures failure.Some? ==>
      failure.value.freshVersion
      == if current.Installed? && !failure.value.kind.IntentIdentityMismatch? then Some(current.version) else None
  {
    if target.intent.None? {
      return None;
    }
    var intent := target.intent.value;
    FirstFailingIsFirst(intent, target, actual, current, compare);
    var refused := Failure(
      IntentIdentityMismatch, target.base, target.name, intent.rpcVersion, intent.installedVersion, actual.version,
      None);
    if !NamesIntended(target, intent, actual) {
      return Some(refused);
    }
    if current.QueryFailed? {
      return Some(refused.(kind := InstalledObservationFailed));
    }
    if current.NotFound? {
      return Some(refused.(kind := InstalledPackageDisappeared));
    }
    refused := refused.(freshVersion := Some(current.version));
    if !HasEvidence(intent, actual, current) {
      return Some(refused.(kind := InvalidVersionEvidence));
    }
    if !IsAsObserved(intent, current) {
      return Some(refused.(kind := InstalledStateDrift));
    }
    var versusInstalled := compare(actual.version, current.version);
    var versusRpc := compare(actual.version, intent.rpcVersion);
    var kind := EvaluateOrdering(Some(versusInstalled), Some(versusRpc));
    if kind.Some? {
      return Some(refused.(kind := kind.value));
    }
    failure := None;
  }

  // ----- runs of guarded updates -----

  function Flip(o: Ordering): Ordering {
    match o
    case Less => Greater
    case Equal => Equal
    case Greater => Less
  }

  predicate AtLeast(compare: Compare, a: string, b: string) {
    compare(a, b) != Less
  }

  ghost predicate IsTotalPreorder(compare: Compare, valid: string -> bool) {
    && (forall a, b :: valid(a) && valid(b) ==> compare(b, a) == Flip(compare(a, b)))
    && (forall a, b, c :: valid(a) && valid(b) && valid(c) && AtLeast(compare, a, b) && AtLeast(compare, b, c) ==>
          AtLeast(compare, a, c))
  }

  ghost predicate IsVersionOrder(compare: Compare) {
    IsTotalPreorder(compare, IsFullVersion)
  }

  /** One guarded update: what was asked for, what was built and what was installed
      when it was checked. */
  datatype Update = Update(target: Target, actual: Artifact, current: Query)

  /** Update `i` was permitted on top of what update `i - 1` installed. */
  ghost predicate IsRun(updates: seq<Update>, compare: Compare) {
    && (forall i | 0 <= i < |updates| ::
          updates[i].target.intent.Some? && updates[i].current.Installed?
          && MayInstall(updates[i].target, updates[i].actual, updates[i].current, compare))
    && (forall i | 0 < i < |updates| :: updates[i].current.version == updates[i - 1].actual.version)
  }

  lemma GreaterIsTransitive(compare: Compare, valid: string -> bool, a: string, b: string, c: string)
    requires IsTotalPreorder(compare, valid) && valid(a) && valid(b) && valid(c)
    requires compare(a, b) == Greater && compare(b, c) == Greater
    ensures compare(a, c) == Greater
  {
    assert AtLeast(compare, a, b) && AtLeast(compare, b, c);
    assert compare(c, b) == Flip(compare(b, c)) && compare(c, a) == Flip(compare(a, c));
    assert !AtLeast(compare, c, b);
    assert !AtLeast(compare, c, a);
  }

  lemma {:induction false} ChainGoesForward(
    versions: seq<string>, compare: Compare, valid: string -> bool, i: nat, j: nat)
    requires IsTotalPreorder(compare, valid) && i < j < |versions|
    requires forall k | 0 <= k < |versions| :: valid(versions[k])
    requires forall k | 0 < k < |versions| :: compare(versions[k], versions[k - 1]) == Greater
    ensures compare(versions[j], versions[i]) == Greater && versions[j] != versions[i]
    decreases j - i
  {
    assert compare(versions[i + 1], versions[i + 1 - 1]) == Greater;
    if i + 1 < j {
      ChainGoesForward(versions, compare, valid, i + 1, j);
      GreaterIsTransitive(compare, valid, versions[j], versions[i + 1], versions[i]);
    }
    assert compare(versions[j], versions[j]) == Flip(compare(versions[j], versions[j]));
  }

  /** The version installed at first, then the one each update installed. */
  function InstalledVersions(updates: seq<Update>): (r: seq<string>)
    requires updates != [] && updates[0].current.Installed?
    ensures |r| == |updates| + 1
  {
    [updates[0].current.version] + seq(|updates|, i requires 0 <= i < |updates| => updates[i].actual.version)
  }

  lemma RunIsChain(updates: seq<Update>, compare: Compare)
    requires IsRun(updates, compare) && updates != []
    ensures var versions := InstalledVersions(updates);
      && (forall k | 0 <= k < |versions| :: IsFullVersion(versions[k]))
      && (forall k | 0 < k < |versions| :: compare(versions[k], versions[k - 1]) == Greater)
  {
    var versions := InstalledVersions(updates);
    forall k | 0 < k < |versions|
      ensures compare(versions[k], versions[k - 1]) == Greater && IsFullVersion(versions[k])
    {
      var u := updates[k - 1];
      assert MayInstall(u.target, u.actual, u.current, compare);
    }
    assert MayInstall(updates[0].target, updates[0].actual, updates[0].current, compare);
  }

  /** In any run the installed version only goes forward and never comes back, and no
      update installs less than the version the AUR showed it. */
  lemma RunsOnlyGoForward(updates: seq<Update>, compare: Compare, i: nat, j: nat)
    requires IsVersionOrder(compare) && IsRun(updates, compare) && i < j <= |updates|
    ensures var versions := InstalledVersions(updates);
      compare(versions[j], versions[i]) == Greater && versions[j] != versions[i]
    ensures compare(updates[j - 1].actual.version, updates[j - 1].target.intent.value.rpcVersion) != Less
  {
    RunIsChain(updates, compare);
    ChainGoesForward(InstalledVersions(updates), compare, IsFullVersion, i, j);
    var u := updates[j - 1];
    assert MayInstall(u.target, u.actual, u.current, compare);
  }

  // ----- install reasons -----

  datatype DesiredReason = DesireExplicit | DesireDependency
  datatype VersionState = NotInstalled | SameVersion | DifferentVersion
  datatype ExistingReason = WasExplicit | WasDependency
  datatype Directive = Default | AsExplicit | AsDependency
  datatype Resolution = LogicError | CannotChangeReason | Resolved(directive: Directive)

  function ResolveInstallReason(
    desired: DesiredReason, state: VersionState, existing: Option<ExistingReason>, needed: bool): Resolution
  {
    if state.NotInstalled? != existing.None? then LogicError
    else
      var directive :=
        match desired
        case DesireExplicit => if !state.NotInstalled? && existing.value.WasDependency? then AsExplicit else Default
        case DesireDependency => if state.NotInstalled? then AsDependency else Default;
      if state.SameVersion? && needed && directive != Default then CannotChangeReason else Resolved(directive)
  }

  datatype InstallOutcome = InstalledNow | SkippedAsNeeded

  function OutcomeOf(state: VersionState, needed: bool, directive: Directive): InstallOutcome {
    if needed && state.SameVersion? && directive.Default? then SkippedAsNeeded else InstalledNow
  }

  /** The reason the package database holds afterwards: pacman applies a directive
      when it installs, keeps the old reason without one, and takes a new package as
      explicit; a skipped install changes nothing. */
  function ReasonAfter(existing: Option<ExistingReason>, directive: Directive, outcome: InstallOutcome): ExistingReason
    requires outcome.SkippedAsNeeded? ==> existing.Some?
  {
    if outcome.SkippedAsNeeded? then existing.value
    else
      match directive
      case AsExplicit => WasExplicit
      case AsDependency => WasDependency
      case Default => if existing.Some? then existing.value else WasExplicit
  }

  /** Whatever is resolved, the package ends up explicit exactly when that was asked
      for or it already was: nothing is demoted, and no promotion is lost to a
      skipped install. */
  lemma ReasonIsKept(desired: DesiredReason, state: VersionState, existing: Option<ExistingReason>, needed: bool)
    requires ResolveInstallReason(desired, state, existing, needed).Resolved?
    ensures var directive := ResolveInstallReason(desired, state, existing, needed).directive;
      var outcome := OutcomeOf(state, needed, directive);
      && (outcome.SkippedAsNeeded? ==> existing.Some?)
      && (ReasonAfter(existing, directive, outcome).WasExplicit? <==>
            desired.DesireExplicit? || existing == Some(WasExplicit))
  {
  }

  /** It refuses only when a skipped install would lose the promotion. */
  lemma RefusesOnlyLostPromotions(
    desired: DesiredReason, state: VersionState, existing: Option<ExistingReason>, needed: bool)
    ensures ResolveInstallReason(desired, state, existing, needed).CannotChangeReason? <==>
      needed && state.SameVersion? && existing == Some(WasDependency) && desired.DesireExplicit?
  {
  }

  /** One request for the package: what it asks for, whether another version than the
      installed one is at hand, and whether `--needed` was given. */
  datatype Request = Request(desired: DesiredReason, differs: bool, needed: bool)

  function StateFor(existing: Option<ExistingReason>, request: Request): VersionState {
    if existing.None? then NotInstalled else if request.differs then DifferentVersion else SameVersion
  }

  function Resolve(existing: Option<ExistingReason>, request: Request): Resolution {
    ResolveInstallReason(request.desired, StateFor(existing, request), existing, request.needed)
  }

  /** What the package database holds after one request; a refused one changes nothing. */
  function ReasonAfterOne(existing: Option<ExistingReason>, request: Request): Option<ExistingReason> {
    match Resolve(existing, request)
    case Resolved(directive) =>
      var outcome := OutcomeOf(StateFor(existing, request), request.needed, directive);
      Some(ReasonAfter(existing, directive, outcome))
    case _ => existing
  }

  function ReasonAfterAll(existing: Option<ExistingReason>, requests: seq<Request>): Option<ExistingReason> {
    if requests == [] then existing
    else ReasonAfterOne(ReasonAfterAll(existing, requests[..|requests| - 1]), requests[|requests| - 1])
  }

  /** What request `i` meets. */
  function ReasonBefore(existing: Option<ExistingReason>, requests: seq<Request>, i: nat): Option<ExistingReason>
    requires i <= |requests|
  {
    ReasonAfterAll(existing, requests[..i])
  }

  ghost predicate PromotesAt(existing: Option<ExistingReason>, requests: seq<Request>, i: nat)
    requires i < |requests|
  {
    requests[i].desired.DesireExplicit? && Resolve(ReasonBefore(existing, requests, i), requests[i]).Resolved?
  }

  lemma OneRequest(existing: Option<ExistingReason>, request: Request)
    ensures !Resolve(existing, request).LogicError?
    ensures Resolve(existing, request).CannotChangeReason? <==>
      request.needed && !request.differs && existing == Some(WasDependency) && request.desired.DesireExplicit?
    ensures ReasonAfterOne(existing, request) == Some(WasExplicit) <==>
      || existing == Some(WasExplicit)
      || (request.desired.DesireExplicit? && Resolve(existing, request).Resolved?)
    ensures ReasonAfterOne(existing, request).Some?
  {
    RefusesOnlyLostPromotions(request.desired, StateFor(existing, request), existing, request.needed);
    if Resolve(existing, request).Resolved? {
      ReasonIsKept(request.desired, StateFor(existing, request), existing, request.needed);
    }
  }

  /** Over any requests the package ends up explicit exactly when it was so at first or
      some request that was not refused asked for it, and no later request takes that
      back; what is refused is a promotion that a skipped install would lose. */
  lemma {:induction false} PromotionsStay(existing: Option<ExistingReason>, requests: seq<Request>)
    ensures ReasonAfterAll(existing, requests) == Some(WasExplicit) <==>
      || existing == Some(WasExplicit)
      || exists i: nat | i < |requests| :: PromotesAt(existing, requests, i)
    ensures forall i: nat | i < |requests| ::
      Resolve(ReasonBefore(existing, requests, i), requests[i]).Resolved? <==>
        !(requests[i].needed && !requests[i].differs && requests[i].desired.DesireExplicit?
          && ReasonBefore(existing, requests, i) == Some(WasDependency))
  {
    forall i: nat | i < |requests|
      ensures Resolve(ReasonBefore(existing, requests, i), requests[i]).Resolved? <==>
        !(requests[i].needed && !requests[i].differs && requests[i].desired.DesireExplicit?
          && ReasonBefore(existing, requests, i) == Some(WasDependency))
    {
      OneRequest(ReasonBefore(existing, requests, i), requests[i]);
    }
    if requests != [] {
      var n := |requests| - 1;
      var fewer := requests[..n];
      PromotionsStay(existing, fewer);
      OneRequest(ReasonAfterAll(existing, fewer), requests[n]);
      forall i: nat | i < n ensures PromotesAt(existing, requests, i) <==> PromotesAt(existing, fewer, i) {
        assert requests[..i] == fewer[..i];
      }
      assert PromotesAt(existing, requests, n) <==>
        requests[n].desired.DesireExplicit? && Resolve(ReasonAfterAll(existing, fewer), requests[n]).Resolved?;
    }
  }
}
