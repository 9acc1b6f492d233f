/**
 Projection of AUR metadata into typed requirements and capabilities, the choice of
 a provider among them, and its refresh against newer metadata.  The parsers of
 single specifications and the version comparison are parameters.
 */
module ConstraintMetadata {
  import opened Wrappers

  datatype ParseFailure = ParseFailure(kind: nat, raw: string)
  datatype Parsed<T> = Parsed(value: T) | Unparsed(failure: ParseFailure)

  datatype UnknownReason =
    | MissingVersionMetadata | UnversionedProviderCapability | MetadataQueryFailure | PartialSourceFailure
    | ComparisonAuthorityUnavailable | CandidateVersionUnavailable | RelationKindNotComparable
  datatype InvalidReason = InvalidVersionIdentity | InternalInvariantViolation | OtherInvalid
  datatype VersionSource = AurExactPackage | AurProviderCapability | OtherSource
  datatype Observation = Available(version: string) | Unknown(reason: UnknownReason) | Invalid(why: InvalidReason)
  datatype ObservedVersion = Observed(source: VersionSource, outcome: Observation)

  datatype Ordering = Less | Equal | Greater
  datatype Operator = LessThan | LessThanOrEqual | EqualTo | GreaterThanOrEqual | GreaterThan
  datatype Constraint = Constraint(operator: Operator, version: string)
  datatype Requirement = Requirement(raw: string, name: string, constraint: Option<Constraint>)
  datatype Capability = Capability(raw: string, name: string, version: Option<string>)
  datatype CapabilityMetadata = CapabilityMetadata(capability: Capability, providedVersion: ObservedVersion)

  datatype RelationKind = Conflict | Replacement
  datatype Field = Depends | MakeDepends | CheckDepends | Provides | Conflicts | Replaces

  datatype PackageInfo = PackageInfo(
    name: string, base: string, version: string, depends: seq<string>, makeDepends: seq<string>,
    checkDepends: seq<string>, provided: seq<string>, conflicts: seq<string>, replacements: seq<string>)

  /** `D` is a parsed dependency, `R` a parsed declared relation. */
  datatype Parsers<!D, !R> = Parsers(
    dependency: string -> Parsed<D>, capability: string -> Parsed<Capability>,
    relation: (string, string, RelationKind, string) -> Parsed<R>, isVersion: string -> bool)

  datatype Metadata<D, R> = Metadata(
    name: string, base: string, version: ObservedVersion, depends: seq<D>, makeDepends: seq<D>, checkDepends: seq<D>,
    provided: seq<CapabilityMetadata>, relations: seq<R>)

  datatype ProjectionFailure = ProjectionFailure(
    name: string, base: string, field: Field, index: nat, reason: ParseFailure)

  datatype Projected<D, R> = Success(metadata: Metadata<D, R>) | Failed(failure: ProjectionFailure)

  // ----- one list -----

  datatype ListResult<T> = Items(items: seq<T>) | BadItem(index: nat, reason: ParseFailure)

  ghost predicate Lists<T>(items: seq<T>, specifications: seq<string>, parse: string -> Parsed<T>) {
    && |items| == |specifications|
    && forall i | 0 <= i < |items| :: parse(specifications[i]) == Parsed(items[i])
  }

  /** All items in order, or the first one that does not parse. */
  ghost predicate IsListOf<T>(r: ListResult<T>, specifications: seq<string>, parse: string -> Parsed<T>) {
    match r
    case Items(items) => Lists(items, specifications, parse)
    case BadItem(index, reason) =>
      && index < |specifications| && parse(specifications[index]) == Unparsed(reason)
      && forall i | 0 <= i < index :: parse(specifications[i]).Parsed?
  }

  method ProjectArray<T>(specifications: seq<string>, parse: string -> Parsed<T>) returns (r: ListResult<T>)
    ensures IsListOf(r, specifications, parse)
  {
    var items: seq<T> := [];
    for index := 0 to |specifications|
      invariant |items| == index
      invariant forall i | 0 <= i < index :: parse(specifications[i]) == Parsed(items[i])
    {
      match parse(specifications[index]) {
        case Unparsed(reason) => return BadItem(index, reason);
        case Parsed(item) => items := items + [item];
      }
    }
    r := Items(items);
  }

  // ----- the whole projection -----

  function ObservedAvailable(source: VersionSource, version: string, isVersion: string -> bool): ObservedVersion {
    Observed(source, if isVersion(version) then Available(version) else Invalid(InvalidVersionIdentity))
  }

  function ExactVersion(version: string, isVersion: string -> bool): ObservedVersion {
    if version == "" then Observed(AurExactPackage, Unknown(MissingVersionMetadata))
    else ObservedAvailable(AurExactPackage, version, isVersion)
  }

  function WithProvidedVersion(capability: Capability, isVersion: string -> bool): CapabilityMetadata {
    CapabilityMetadata(
      capability,
      if capability.version.Some? then ObservedAvailable(AurProviderCapability, capability.version.value, isVersion)
      else Observed(AurProviderCapability, Unknown(UnversionedProviderCapability)))
  }

  function ParseProvided<D, R>(parsers: Parsers<D, R>, specification: string): Parsed<CapabilityMetadata> {
    match parsers.capability(specification)
    case Unparsed(failure) => Unparsed(failure)
    case Parsed(capability) => Parsed(WithProvidedVersion(capability, parsers.isVersion))
  }

  function Specifications(info: PackageInfo, field: Field): seq<string> {
    match field
    case Depends => info.depends
    case MakeDepends => info.makeDepends
    case CheckDepends => info.checkDepends
    case Provides => info.provided
    case Conflicts => info.conflicts
    case Replaces => info.replacements
  }

  function Rank(field: Field): nat {
    match field
    case Depends => 0
    case MakeDepends => 1
    case CheckDepends => 2
    case Provides => 3
    case Conflicts => 4
    case Replaces => 5
  }

  /** The failure of one item, if it does not parse. */
  function FailureAt<D, R>(parsers: Parsers<D, R>, info: PackageInfo, field: Field, i: nat): Option<ParseFailure>
    requires i < |Specifications(info, field)|
  {
    var specification := Specifications(info, field)[i];
    match field
    case Provides => FailureOf(parsers.capability(specification))
    case Conflicts => FailureOf(parsers.relation(info.name, info.base, Conflict, specification))
    case Replaces => FailureOf(parsers.relation(info.name, info.base, Replacement, specification))
    case _ => FailureOf(parsers.dependency(specification))
  }

  function FailureOf<T>(parsed: Parsed<T>): Option<ParseFailure> {
    if parsed.Unparsed? then Some(parsed.failure) else None
  }

  ghost predicate FieldIsFine<D, R>(parsers: Parsers<D, R>, info: PackageInfo, field: Field) {
    forall i: nat | i < |Specifications(info, field)| :: FailureAt(parsers, info, field, i).None?
  }

  /** The first item that does not parse, fields in their order, then by index. */
  ghost predicate IsFirstFailure<D, R>(parsers: Parsers<D, R>, info: PackageInfo, f: ProjectionFailure) {
    && f.name == info.name && f.base == info.base
    && f.index < |Specifications(info, f.field)|
    && FailureAt(parsers, info, f.field, f.index) == Some(f.reason)
    && (forall field | Rank(field) < Rank(f.field) :: FieldIsFine(parsers, info, field))
    && (forall i: nat | i < f.index :: FailureAt(parsers, info, f.field, i).None?)
  }

  function ConflictParser<D, R>(parsers: Parsers<D, R>, info: PackageInfo, kind: RelationKind): string -> Parsed<R> {
    specification => parsers.relation(info.name, info.base, kind, specification)
  }

  function ProvidedParser<D, R>(parsers: Parsers<D, R>): string -> Parsed<CapabilityMetadata> {
    specification => ParseProvided(parsers, specification)
  }

  /** Every list in the order of its field, conflicts before replacements. */
  ghost predicate IsMetadataOf<D, R>(parsers: Parsers<D, R>, info: PackageInfo, m: Metadata<D, R>) {
    && m.name == info.name && m.base == info.base && m.version == ExactVersion(info.version, parsers.isVersion)
    && Lists(m.depends, info.depends, parsers.dependency)
    && Lists(m.makeDepends, info.makeDepends, parsers.dependency)
    && Lists(m.checkDepends, info.checkDepends, parsers.dependency)
    && Lists(m.provided, info.provided, ProvidedParser(parsers))
    && |m.relations| == |info.conflicts| + |info.replacements|
    && Lists(m.relations[..|info.conflicts|], info.conflicts, ConflictParser(parsers, info, Conflict))
    && Lists(m.relations[|info.conflicts|..], info.replacements, ConflictParser(parsers, info, Replacement))
  }

  function FailedAt(info: PackageInfo, field: Field, index: nat, reason: ParseFailure): Option<ProjectionFailure> {
    Some(ProjectionFailure(info.name, info.base, field, index, reason))
  }

  lemma NotFine<D, R>(parsers: Parsers<D, R>, info: PackageInfo, field: Field, i: nat)
    requires i < |Specifications(info, field)| && FailureAt(parsers, info, field, i).Some?
    ensures !FieldIsFine(parsers, info, field)
  {
  }

  lemma FailureIsNotFine<D, R>(parsers: Parsers<D, R>, info: PackageInfo, f: ProjectionFailure)
    requires IsFirstFailure(parsers, info, f)
    ensures !FieldIsFine(parsers, info, f.field)
  {
    NotFine(parsers, info, f.field, f.index);
  }

  /** The three lists of dependencies, or the first of their items that does not parse. */
  method ProjectDependencies<D, R>(parsers: Parsers<D, R>, info: PackageInfo)
    returns (failure: Option<ProjectionFailure>, depends: seq<D>, makeDepends: seq<D>, checkDepends: seq<D>)
    ensures failure.Some? ==> IsFirstFailure(parsers, info, failure.value)
    ensures failure.None? ==>
      && Lists(depends, info.depends, parsers.dependency)
      && Lists(makeDepends, info.makeDepends, parsers.dependency)
      && Lists(checkDepends, info.checkDepends, parsers.dependency)
      && FieldIsFine(parsers, info, Depends) && FieldIsFine(parsers, info, MakeDepends)
      && FieldIsFine(parsers, info, CheckDepends)
  {
    depends, makeDepends, checkDepends := [], [], [];
    var first := ProjectArray(info.depends, parsers.dependency);
    if first.BadItem? {
      return FailedAt(info, Depends, first.index, first.reason), depends, makeDepends, checkDepends;
    }
    depends := first.items;
    assert FieldIsFine(parsers, info, Depends);
    var second := ProjectArray(info.makeDepends, parsers.dependency);
    if second.BadItem? {
      return FailedAt(info, MakeDepends, second.index, second.reason), depends, makeDepends, checkDepends;
    }
    makeDepends := second.items;
    assert FieldIsFine(parsers, info, MakeDepends);
    var third := ProjectArray(info.checkDepends, parsers.dependency);
    if third.BadItem? {
      return FailedAt(info, CheckDepends, third.index, third.reason), depends, makeDepends, checkDepends;
    }
    checkDepends := third.items;
    assert FieldIsFine(parsers, info, CheckDepends);
    failure := None;
  }

  /** The conflicts and then the replacements, once the fields before them parse. */
  method ProjectRelations<D, R>(parsers: Parsers<D, R>, info: PackageInfo)
    returns (failure: Option<ProjectionFailure>, relations: seq<R>)
    requires forall field | Rank(field) < Rank(Conflicts) :: FieldIsFine(parsers, info, field)
    ensures failure.Some? ==> IsFirstFailure(parsers, info, failure.value)
    ensures failure.None? ==>
      && |relations| == |info.conflicts| + |info.replacements|
      && Lists(relations[..|info.conflicts|], info.conflicts, ConflictParser(parsers, info, Conflict))
      && Lists(relations[|info.conflicts|..], info.replacements, ConflictParser(parsers, info, Replacement))
      && FieldIsFine(parsers, info, Conflicts) && FieldIsFine(parsers, info, Replaces)
  {
    var conflicts := ProjectArray(info.conflicts, ConflictParser(parsers, info, Conflict));
    if conflicts.BadItem? {
      return FailedAt(info, Conflicts, conflicts.index, conflicts.reason), [];
    }
    assert FieldIsFine(parsers, info, Conflicts);
    var replacements := ProjectArray(info.replacements, ConflictParser(parsers, info, Replacement));
    if replacements.BadItem? {
      return FailedAt(info, Replaces, replacements.index, replacements.reason), [];
    }
    assert FieldIsFine(parsers, info, Replaces);
    failure, relations := None, conflicts.items + replacements.items;
    assert relations[..|info.conflicts|] == conflicts.items && relations[|info.conflicts|..] == replacements.items;
  }

  method ProjectConstraintMetadata<D, R>(parsers: Parsers<D, R>, info: PackageInfo) returns (r: Projected<D, R>)
    ensures r.Failed? ==> IsFirstFailure(parsers, info, r.failure)
    ensures r.Success? ==> IsMetadataOf(parsers, info, r.metadata)
    ensures r.Success? <==> forall field :: FieldIsFine(parsers, info, field)
  {
    var failure, depends, makeDepends, checkDepends := ProjectDependencies(parsers, info);
    if failure.Some? {
      FailureIsNotFine(parsers, info, failure.value);
      return Failed(failure.value);
    }
    var provided := ProjectArray(info.provided, ProvidedParser(parsers));
    if provided.BadItem? {
      NotFine(parsers, info, Provides, provided.index);
      return Failed(ProjectionFailure(info.name, info.base, Provides, provided.index, provided.reason));
    }
    assert FieldIsFine(parsers, info, Provides);
    var relations;
    failure, relations := ProjectRelations(parsers, info);
    if failure.Some? {
      FailureIsNotFine(parsers, info, failure.value);
      return Failed(failure.value);
    }
    r := Success(Metadata(
      info.name, info.base, ExactVersion(info.version, parsers.isVersion), depends, makeDepends, checkDepends,
      provided.items, relations));
  }

  // ----- providers -----

  datatype ProviderConstraint = ProviderConstraint(
    capability: Capability, packageVersion: ObservedVersion, providedVersion: ObservedVersion)

  datatype Origin = FromRepository(repository: string) | FromAur

  datatype Provider = Provider(
    origin: Origin, packageName: string, packageBase: string, dependencyName: string, specification: string,
    packageVersion: Option<string>, constraint: Option<ProviderConstraint>)

  datatype Evaluation =
    | Unconstrained | Satisfied | Unsatisfied
    | UnknownVersion(reason: UnknownReason) | InvalidVersion(why: InvalidReason)

  datatype Projection = Projection(requirement: Requirement, provider: Provider, evaluation: Evaluation)

  datatype FailureKind = InvalidCandidateMetadata | MatchingCapabilityMissing | ProviderIdentityChanged

  /** `Thrown` is the exception of a provider built from inconsistent versions. */
  datatype ProviderResult =
    | Chosen(projection: Projection)
    | UnknownProvider(requirement: Requirement, packageName: string, packageBase: Option<string>, reason: UnknownReason)
    | NotChosen(requirement: Requirement, packageName: string, packageBase: Option<string>, kind: FailureKind,
        metadataFailure: Option<ParseFailure>)
    | Thrown

  type Compare = (string, string) -> Ordering

  predicate IsSatisfiedBy(operator: Operator, ordering: Ordering) {
    match operator
    case LessThan => ordering.Less?
    case LessThanOrEqual => !ordering.Greater?
    case EqualTo => ordering.Equal?
    case GreaterThanOrEqual => !ordering.Less?
    case GreaterThan => ordering.Greater?
  }

  function Evaluate(requirement: Requirement, observed: ObservedVersion, compare: Compare): Evaluation {
    if requirement.constraint.None? then Unconstrained
    else
      match observed.outcome
      case Unknown(reason) => UnknownVersion(reason)
      case Invalid(why) => InvalidVersion(why)
      case Available(version) =>
        var constraint := requirement.constraint.value;
        if IsSatisfiedBy(constraint.operator, compare(version, constraint.version)) then Satisfied else Unsatisfied
  }

  /** The versions a provider may be built from. */
  predicate IsConsistent(packageVersion: ObservedVersion, c: CapabilityMetadata) {
    && packageVersion.source.AurExactPackage? && c.providedVersion.source.AurProviderCapability?
    && c.providedVersion.outcome ==
         if c.capability.version.Some? then Available(c.capability.version.value)
         else Unknown(UnversionedProviderCapability)
  }

  /** The first capability with the required name. */
  function FindCapability(provided: seq<CapabilityMetadata>, name: string): Option<CapabilityMetadata> {
    if provided == [] then None
    else if provided[0].capability.name == name then Some(provided[0])
    else FindCapability(provided[1..], name)
  }

  function ProviderOf<D, R>(m: Metadata<D, R>, c: CapabilityMetadata): Provider {
    Provider(
      FromAur, m.name, m.base, c.capability.name, c.capability.raw,
      if m.version.outcome.Available? then Some(m.version.outcome.version) else None,
      Some(ProviderConstraint(c.capability, m.version, c.providedVersion)))
  }

  function ProjectAvailable<D, R>(requirement: Requirement, m: Metadata<D, R>, compare: Compare): ProviderResult {
    var matching := FindCapability(m.provided, requirement.name);
    if matching.None? then NotChosen(requirement, m.name, Some(m.base), MatchingCapabilityMissing, None)
    else if !IsConsistent(m.version, matching.value) then Thrown
    else
      Chosen(Projection(
        requirement, ProviderOf(m, matching.value), Evaluate(requirement, matching.value.providedVersion, compare)))
  }

  datatype Candidate<D, R> =
    | CandidateMetadata(metadata: Metadata<D, R>)
    | CandidateFailure(failure: ProjectionFailure)
    | CandidateUnavailable(name: string, base: Option<string>, reason: UnknownReason)

  function ProjectProvider<D, R>(
    requirement: Requirement, candidate: Candidate<D, R>, compare: Compare): ProviderResult
  {
    match candidate
    case CandidateMetadata(m) => ProjectAvailable(requirement, m, compare)
    case CandidateUnavailable(name, base, reason) => UnknownProvider(requirement, name, base, reason)
    case CandidateFailure(f) => NotChosen(requirement, f.name, Some(f.base), InvalidCandidateMetadata, Some(f.reason))
  }

  function IdentityChanged(selected: Projection): ProviderResult {
    NotChosen(
      selected.requirement, selected.provider.packageName, Some(selected.provider.packageBase), ProviderIdentityChanged,
      None)
  }

  predicate OffersTheSame(selected: Provider, now: Provider)
    requires now.constraint.Some?
  {
    && selected.constraint.Some? && selected.dependencyName == now.dependencyName
    && selected.specification == now.specification
    && selected.constraint.value.capability == now.constraint.value.capability
    && selected.constraint.value.providedVersion == now.constraint.value.providedVersion
  }

  function Refresh<D, R>(selected: Projection, current: Candidate<D, R>, compare: Compare): ProviderResult {
    var provider := selected.provider;
    if !provider.origin.FromAur? then IdentityChanged(selected)
    else
      match current
      case CandidateMetadata(m) =>
        if provider.packageName != m.name || provider.packageBase != m.base then IdentityChanged(selected)
        else
          var refreshed := ProjectAvailable(selected.requirement, m, compare);
          if refreshed.Chosen? && !OffersTheSame(provider, refreshed.projection.provider) then IdentityChanged(selected)
          else refreshed
      case CandidateUnavailable(name, base, reason) =>
        if (name != "" && provider.packageName != name) || (base.Some? && provider.packageBase != base.value) then
          IdentityChanged(selected)
        else UnknownProvider(selected.requirement, provider.packageName, Some(provider.packageBase), reason)
      case CandidateFailure(f) =>
        if (f.name != "" && provider.packageName != f.name) || (f.base != "" && provider.packageBase != f.base) then
          IdentityChanged(selected)
        else
          NotChosen(
            selected.requirement, provider.packageName, Some(provider.packageBase), InvalidCandidateMetadata,
            Some(f.reason))
  }

  // ----- what refreshing keeps -----

  lemma {:induction false} FoundIsProvided(provided: seq<CapabilityMetadata>, name: string)
    requires FindCapability(provided, name).Some?
    ensures FindCapability(provided, name).value in provided
    ensures FindCapability(provided, name).value.capability.name == name
  {
    if provided[0].capability.name != name {
      FoundIsProvided(provided[1..], name);
    }
  }

  /** The parser gives capabilities only versions that are versions. */
  ghost predicate ParsesVersions<D, R>(parsers: Parsers<D, R>) {
    forall s :: parsers.capability(s).Parsed? && parsers.capability(s).value.version.Some? ==>
      parsers.isVersion(parsers.capability(s).value.version.value)
  }

  /** Metadata that was projected never makes a provider throw. */
  lemma ProjectedMetadataNeverThrows<D, R>(
    parsers: Parsers<D, R>, info: PackageInfo, m: Metadata<D, R>, requirement: Requirement, compare: Compare)
    requires ParsesVersions(parsers) && IsMetadataOf(parsers, info, m)
    ensures !ProjectAvailable(requirement, m, compare).Thrown?
  {
    var matching := FindCapability(m.provided, requirement.name);
    if matching.Some? {
      FoundIsProvided(m.provided, requirement.name);
      var i :| 0 <= i < |m.provided| && m.provided[i] == matching.value;
      assert ParseProvided(parsers, info.provided[i]) == Parsed(m.provided[i]);
    }
  }

  /** A projection as it is made: from the AUR, with the verdict on what it provides. */
  predicate IsSelection(p: Projection, compare: Compare) {
    && p.provider.origin.FromAur? && p.provider.constraint.Some?
    && p.evaluation == Evaluate(p.requirement, p.provider.constraint.value.providedVersion, compare)
  }

  /** Everything about a selection but the package's own version. */
  predicate SameSelection(a: Projection, b: Projection) {
    && a.requirement == b.requirement && a.evaluation == b.evaluation
    && a.provider.packageName == b.provider.packageName && a.provider.packageBase == b.provider.packageBase
    && a.provider.constraint.Some? && b.provider.constraint.Some?
    && a.provider.constraint.value.capability == b.provider.constraint.value.capability
    && a.provider.constraint.value.providedVersion == b.provider.constraint.value.providedVersion
    && a.provider.dependencyName == b.provider.dependencyName && a.provider.specification == b.provider.specification
  }

  lemma ChosenIsSelection<D, R>(requirement: Requirement, candidate: Candidate<D, R>, compare: Compare)
    requires ProjectProvider(requirement, candidate, compare).Chosen?
    ensures IsSelection(ProjectProvider(requirement, candidate, compare).projection, compare)
  {
  }

  /** Refreshing against the metadata a projection came from changes nothing. */
  lemma RefreshAgainstTheSame<D, R>(requirement: Requirement, candidate: Candidate<D, R>, compare: Compare)
    requires ProjectProvider(requirement, candidate, compare).Chosen?
    ensures Refresh(ProjectProvider(requirement, candidate, compare).projection, candidate, compare)
      == ProjectProvider(requirement, candidate, compare)
  {
  }

  /** A refresh succeeds exactly when the same package still offers the same thing
      first; and then only the package's own version can differ. */
  lemma RefreshSucceedsExactly<D, R>(selected: Projection, current: Candidate<D, R>, compare: Compare)
    requires IsSelection(selected, compare)
    ensures Refresh(selected, current, compare).Chosen? <==> StillOffers(selected, current)
  {
  }

  predicate StillOffers<D, R>(selected: Projection, current: Candidate<D, R>)
    requires selected.provider.constraint.Some?
  {
    && current.CandidateMetadata?
    && var c := FindCapability(current.metadata.provided, selected.requirement.name);
       && selected.provider.packageName == current.metadata.name
       && selected.provider.packageBase == current.metadata.base
       && c.Some? && IsConsistent(current.metadata.version, c.value)
       && selected.provider.dependencyName == c.value.capability.name
       && selected.provider.specification == c.value.capability.raw
       && selected.provider.constraint.value.capability == c.value.capability
       && selected.provider.constraint.value.providedVersion == c.value.providedVersion
  }

  lemma RefreshKeeps<D, R>(selected: Projection, current: Candidate<D, R>, compare: Compare)
    requires IsSelection(selected, compare) && Refresh(selected, current, compare).Chosen?
    ensures var now := Refresh(selected, current, compare).projection;
      SameSelection(selected, now) && IsSelection(now, compare)
  {
  }

  /** The projection after refreshing against each candidate in turn, while all of
      them succeed. */
  function RefreshAll<D, R>(
    selected: Projection, candidates: seq<Candidate<D, R>>, compare: Compare): Option<Projection>
    decreases |candidates|
  {
    if candidates == [] then Some(selected)
    else
      var r := Refresh(selected, candidates[0], compare);
      if r.Chosen? then RefreshAll(r.projection, candidates[1..], compare) else None
  }

  /** Along any chain of successful refreshes the package, its base, the capability,
      the version it provides and the verdict stay what they were at selection. */
  lemma {:induction false} ChainKeepsSelection<D, R>(
    selected: Projection, candidates: seq<Candidate<D, R>>, compare: Compare)
    requires IsSelection(selected, compare) && RefreshAll(selected, candidates, compare).Some?
    ensures SameSelection(selected, RefreshAll(selected, candidates, compare).value)
    ensures IsSelection(RefreshAll(selected, candidates, compare).value, compare)
    decreases |candidates|
  {
    if candidates != [] {
      RefreshKeeps(selected, candidates[0], compare);
      ChainKeepsSelection(Refresh(selected, candidates[0], compare).projection, candidates[1..], compare);
    }
  }

  /** Of earlier refreshes only the selection they kept counts. */
  lemma RefreshForgets<D, R>(selected: Projection, now: Projection, current: Candidate<D, R>, compare: Compare)
    requires IsSelection(selected, compare) && IsSelection(now, compare) && SameSelection(selected, now)
    ensures StillOffers(now, current) <==> StillOffers(selected, current)
    ensures StillOffers(selected, current) ==> Refresh(now, current, compare) == Refresh(selected, current, compare)
  {
  }

  /** A chain of refreshes succeeds exactly when every candidate, in whatever order,
      still offers what was selected at first; and then only the last one shows. */
  lemma {:induction false} ChainSucceedsExactly<D, R>(
    selected: Projection, candidates: seq<Candidate<D, R>>, compare: Compare)
    requires IsSelection(selected, compare)
    ensures RefreshAll(selected, candidates, compare).Some? <==>
      forall i | 0 <= i < |candidates| :: StillOffers(selected, candidates[i])
    ensures candidates != [] && RefreshAll(selected, candidates, compare).Some? ==>
      var last := Refresh(selected, candidates[|candidates| - 1], compare);
      last.Chosen? && RefreshAll(selected, candidates, compare).value == last.projection
    decreases |candidates|
  {
    if candidates != [] {
      var head, tail := candidates[0], candidates[1..];
      RefreshSucceedsExactly(selected, head, compare);
      if StillOffers(selected, head) {
        RefreshKeeps(selected, head, compare);
        var now := Refresh(selected, head, compare).projection;
        ChainSucceedsExactly(now, tail, compare);
        forall i | 0 <= i < |tail|
          ensures StillOffers(now, tail[i]) <==> StillOffers(selected, candidates[i + 1])
          ensures StillOffers(now, tail[i]) ==> Refresh(now, tail[i], compare) == Refresh(selected, tail[i], compare)
        {
          RefreshForgets(selected, now, tail[i], compare);
        }
      }
    }
  }

  /** From the first choice of a provider through any number of refreshes: the last
      projection shows the package, the capability and the verdict of the candidate
      that was chosen, and it still is a consistent selection.  Refreshing against that
      candidate alone changes nothing. */
  lemma RefreshedIsAsChosen<D, R>(
    requirement: Requirement, chosen: Candidate<D, R>, later: seq<Candidate<D, R>>, compare: Compare)
    requires ProjectProvider(requirement, chosen, compare).Chosen?
    ensures var first := ProjectProvider(requirement, chosen, compare).projection;
      var last := RefreshAll(first, later, compare);
      && (last.Some? ==>
            && SameSelection(first, last.value) && IsSelection(last.value, compare)
            && last.value.requirement == requirement)
      && ((forall i | 0 <= i < |later| :: later[i] == chosen) ==> last == Some(first))
  {
    var first := ProjectProvider(requirement, chosen, compare).projection;
    ChosenIsSelection(requirement, chosen, compare);
    if RefreshAll(first, later, compare).Some? {
      ChainKeepsSelection(first, later, compare);
    }
    RefreshAgainstTheSame(requirement, chosen, compare);
    RefreshSucceedsExactly(first, chosen, compare);
    ChainSucceedsExactly(first, later, compare);
  }
}
