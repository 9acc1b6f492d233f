/**
 Projected metadata, the choice of a provider and its refresh once more, told from the
 fields of what goes in and comes out.
 */
module ProviderConditions {
  import opened Wrappers
  import opened ConstraintMetadata

  // ----- projection -----

  ghost predicate AllParse<T(!new)>(specifications: seq<string>, parse: string -> Parsed<T>) {
    forall s | s in specifications :: parse(s).Parsed?
  }

  /** Item `k` is the first that does not parse. */
  ghost predicate BreaksAt<T(!new)>(
    specifications: seq<string>, parse: string -> Parsed<T>, k: nat, reason: ParseFailure)
  {
    && k < |specifications| && parse(specifications[k]) == Unparsed(reason)
    && AllParse(specifications[..k], parse)
  }

  ghost function RelationReader<D, R>(
    parsers: Parsers<D, R>, info: PackageInfo, kind: RelationKind): string -> Parsed<R>
  {
    s => parsers.relation(info.name, info.base, kind, s)
  }

  /** Every list of the package parses. */
  ghost predicate ParsesWholly<D(!new), R(!new)>(parsers: Parsers<D, R>, info: PackageInfo) {
    && AllParse(info.depends, parsers.dependency) && AllParse(info.makeDepends, parsers.dependency)
    && AllParse(info.checkDepends, parsers.dependency) && AllParse(info.provided, parsers.capability)
    && AllParse(info.conflicts, RelationReader(parsers, info, Conflict))
    && AllParse(info.replacements, RelationReader(parsers, info, Replacement))
  }

  /** One list breaks and all lists read before it parse. */
  ghost predicate BreaksFirst<D(!new), R(!new)>(parsers: Parsers<D, R>, info: PackageInfo, f: ProjectionFailure) {
    && f.name == info.name && f.base == info.base
    && match f.field
       case Depends => BreaksAt(info.depends, parsers.dependency, f.index, f.reason)
       case MakeDepends =>
         && AllParse(info.depends, parsers.dependency)
         && BreaksAt(info.makeDepends, parsers.dependency, f.index, f.reason)
       case CheckDepends =>
         && AllParse(info.depends + info.makeDepends, parsers.dependency)
         && BreaksAt(info.checkDepends, parsers.dependency, f.index, f.reason)
       case Provides =>
         && AllParse(info.depends + info.makeDepends + info.checkDepends, parsers.dependency)
         && BreaksAt(info.provided, parsers.capability, f.index, f.reason)
       case Conflicts =>
         && AllParse(info.depends + info.makeDepends + info.checkDepends, parsers.dependency)
         && AllParse(info.provided, parsers.capability)
         && BreaksAt(info.conflicts, RelationReader(parsers, info, Conflict), f.index, f.reason)
       case Replaces =>
         && AllParse(info.depends + info.makeDepends + info.checkDepends, parsers.dependency)
         && AllParse(info.provided, parsers.capability)
         && AllParse(info.conflicts, RelationReader(parsers, info, Conflict))
         && BreaksAt(info.replacements, RelationReader(parsers, info, Replacement), f.index, f.reason)
  }

  lemma AllParseMeans<T(!new)>(specifications: seq<string>, parse: string -> Parsed<T>)
    ensures AllParse(specifications, parse) <==>
      forall i | 0 <= i < |specifications| :: FailureOf(parse(specifications[i])).None?
  {
    if AllParse(specifications, parse) {
      forall i | 0 <= i < |specifications| ensures FailureOf(parse(specifications[i])).None? {
        assert specifications[i] in specifications;
      }
    } else {
      var i :| 0 <= i < |specifications| && parse(specifications[i]).Unparsed?;
    }
  }

  lemma AllParseTogether<T(!new)>(a: seq<string>, b: seq<string>, parse: string -> Parsed<T>)
    ensures AllParse(a + b, parse) <==> AllParse(a, parse) && AllParse(b, parse)
  {
  }

  lemma FieldIs<D(!new), R(!new), T(!new)>(
    parsers: Parsers<D, R>, info: PackageInfo, field: Field, parse: string -> Parsed<T>)
    requires forall i: nat | i < |Specifications(info, field)| ::
      FailureAt(parsers, info, field, i) == FailureOf(parse(Specifications(info, field)[i]))
    ensures FieldIsFine(parsers, info, field) <==> AllParse(Specifications(info, field), parse)
  {
    AllParseMeans(Specifications(info, field), parse);
    if AllParse(Specifications(info, field), parse) {
      forall i: nat | i < |Specifications(info, field)| ensures FailureAt(parsers, info, field, i).None? {
        assert FailureAt(parsers, info, field, i) == FailureOf(parse(Specifications(info, field)[i]));
      }
    }
    if FieldIsFine(parsers, info, field) {
      forall i: nat | i < |Specifications(info, field)|
        ensures FailureOf(parse(Specifications(info, field)[i])).None?
      {
        assert FailureAt(parsers, info, field, i).None?;
      }
    }
  }

  lemma FieldMeans<D(!new), R(!new)>(parsers: Parsers<D, R>, info: PackageInfo)
    ensures FieldIsFine(parsers, info, Depends) <==> AllParse(info.depends, parsers.dependency)
    ensures FieldIsFine(parsers, info, MakeDepends) <==> AllParse(info.makeDepends, parsers.dependency)
    ensures FieldIsFine(parsers, info, CheckDepends) <==> AllParse(info.checkDepends, parsers.dependency)
    ensures FieldIsFine(parsers, info, Provides) <==> AllParse(info.provided, parsers.capability)
    ensures FieldIsFine(parsers, info, Conflicts) <==>
      AllParse(info.conflicts, RelationReader(parsers, info, Conflict))
    ensures FieldIsFine(parsers, info, Replaces) <==>
      AllParse(info.replacements, RelationReader(parsers, info, Replacement))
  {
    FieldIs(parsers, info, Depends, parsers.dependency);
    FieldIs(parsers, info, MakeDepends, parsers.dependency);
    FieldIs(parsers, info, CheckDepends, parsers.dependency);
    FieldIs(parsers, info, Provides, parsers.capability);
    FieldIs(parsers, info, Conflicts, RelationReader(parsers, info, Conflict));
    FieldIs(parsers, info, Replaces, RelationReader(parsers, info, Replacement));
  }

  lemma BreakMeans<T(!new)>(specifications: seq<string>, parse: string -> Parsed<T>, k: nat, reason: ParseFailure)
    requires k < |specifications|
    ensures BreaksAt(specifications, parse, k, reason) <==>
      && FailureOf(parse(specifications[k])) == Some(reason)
      && forall i | 0 <= i < k :: FailureOf(parse(specifications[i])).None?
  {
    AllParseMeans(specifications[..k], parse);
  }

  /** All lists parse, or the first item that does not, in the order of the lists, is the
      one reported. */
  lemma ProjectionMeans<D(!new), R(!new)>(parsers: Parsers<D, R>, info: PackageInfo)
    ensures (forall field :: FieldIsFine(parsers, info, field)) <==> ParsesWholly(parsers, info)
    ensures forall f :: IsFirstFailure(parsers, info, f) <==> BreaksFirst(parsers, info, f)
  {
    FieldMeans(parsers, info);
    forall f ensures IsFirstFailure(parsers, info, f) <==> BreaksFirst(parsers, info, f) {
      FirstFailureMeans(parsers, info, f);
    }
    if ParsesWholly(parsers, info) {
      forall field ensures FieldIsFine(parsers, info, field) {
        match field {
          case Depends =>
          case MakeDepends =>
          case CheckDepends =>
          case Provides =>
          case Conflicts =>
          case Replaces =>
        }
      }
    }
  }

  ghost predicate EarlierAreFine<D, R>(parsers: Parsers<D, R>, info: PackageInfo, f: Field) {
    forall field | Rank(field) < Rank(f) :: FieldIsFine(parsers, info, field)
  }

  lemma EarlierMean<D(!new), R(!new)>(parsers: Parsers<D, R>, info: PackageInfo, f: Field)
    ensures EarlierAreFine(parsers, info, f) <==>
      && (!f.Depends? ==> AllParse(info.depends, parsers.dependency))
      && (!f.Depends? && !f.MakeDepends? ==> AllParse(info.makeDepends, parsers.dependency))
      && (f.Provides? || f.Conflicts? || f.Replaces? ==> AllParse(info.checkDepends, parsers.dependency))
      && (f.Conflicts? || f.Replaces? ==> AllParse(info.provided, parsers.capability))
      && (f.Replaces? ==> AllParse(info.conflicts, RelationReader(parsers, info, Conflict)))
  {
    FieldMeans(parsers, info);
    assert Rank(Depends) == 0 && Rank(MakeDepends) == 1 && Rank(CheckDepends) == 2;
    assert Rank(Provides) == 3 && Rank(Conflicts) == 4 && Rank(Replaces) == 5;
  }

  lemma ListsTogether<D(!new), R(!new)>(parsers: Parsers<D, R>, info: PackageInfo)
    ensures AllParse(info.depends + info.makeDepends, parsers.dependency) <==>
      AllParse(info.depends, parsers.dependency) && AllParse(info.makeDepends, parsers.dependency)
    ensures AllParse(info.depends + info.makeDepends + info.checkDepends, parsers.dependency) <==>
      && AllParse(info.depends + info.makeDepends, parsers.dependency)
      && AllParse(info.checkDepends, parsers.dependency)
  {
    AllParseTogether(info.depends, info.makeDepends, parsers.dependency);
    AllParseTogether(info.depends + info.makeDepends, info.checkDepends, parsers.dependency);
  }

  /** The failure is of the first item of its list that does not parse. */
  ghost predicate IsFirstOfList<D, R>(parsers: Parsers<D, R>, info: PackageInfo, f: ProjectionFailure) {
    && f.index < |Specifications(info, f.field)|
    && FailureAt(parsers, info, f.field, f.index) == Some(f.reason)
    && forall i: nat | i < f.index :: FailureAt(parsers, info, f.field, i).None?
  }

  lemma FirstOfListIs<D(!new), R(!new), T(!new)>(
    parsers: Parsers<D, R>, info: PackageInfo, f: ProjectionFailure, parse: string -> Parsed<T>)
    requires forall i: nat | i < |Specifications(info, f.field)| ::
      FailureAt(parsers, info, f.field, i) == FailureOf(parse(Specifications(info, f.field)[i]))
    ensures IsFirstOfList(parsers, info, f) <==> BreaksAt(Specifications(info, f.field), parse, f.index, f.reason)
  {
    var all := Specifications(info, f.field);
    if f.index < |all| {
      BreakMeans(all, parse, f.index, f.reason);
      assert FailureAt(parsers, info, f.field, f.index) == FailureOf(parse(all[f.index]));
      forall i: nat | i < f.index ensures FailureAt(parsers, info, f.field, i) == FailureOf(parse(all[i])) {
      }
    }
  }

  lemma FirstOfListMeans<D(!new), R(!new)>(parsers: Parsers<D, R>, info: PackageInfo, f: ProjectionFailure)
    ensures IsFirstOfList(parsers, info, f) <==>
      match f.field
      case Depends => BreaksAt(info.depends, parsers.dependency, f.index, f.reason)
      case MakeDepends => BreaksAt(info.makeDepends, parsers.dependency, f.index, f.reason)
      case CheckDepends => BreaksAt(info.checkDepends, parsers.dependency, f.index, f.reason)
      case Provides => BreaksAt(info.provided, parsers.capability, f.index, f.reason)
      case Conflicts => BreaksAt(info.conflicts, RelationReader(parsers, info, Conflict), f.index, f.reason)
      case Replaces => BreaksAt(info.replacements, RelationReader(parsers, info, Replacement), f.index, f.reason)
  {
    match f.field {
      case Provides => FirstOfListIs(parsers, info, f, parsers.capability);
      case Conflicts => FirstOfListIs(parsers, info, f, RelationReader(parsers, info, Conflict));
      case Replaces => FirstOfListIs(parsers, info, f, RelationReader(parsers, info, Replacement));
      case _ => FirstOfListIs(parsers, info, f, parsers.dependency);
    }
  }

  lemma FirstFailureIs<D, R>(parsers: Parsers<D, R>, info: PackageInfo, f: ProjectionFailure)
    ensures IsFirstFailure(parsers, info, f) <==>
      && f.name == info.name && f.base == info.base
      && EarlierAreFine(parsers, info, f.field) && IsFirstOfList(parsers, info, f)
  {
  }

  lemma FirstFailureMeans<D(!new), R(!new)>(parsers: Parsers<D, R>, info: PackageInfo, f: ProjectionFailure)
    ensures IsFirstFailure(parsers, info, f) <==> BreaksFirst(parsers, info, f)
  {
    FirstFailureIs(parsers, info, f);
    EarlierMean(parsers, info, f.field);
    ListsTogether(parsers, info);
    FirstOfListMeans(parsers, info, f);
  }

  /** A version that is one, and otherwise why none is known. */
  ghost predicate IsVersionOf(
    observed: ObservedVersion, source: VersionSource, text: Option<string>, missing: UnknownReason,
    isVersion: string -> bool)
  {
    && observed.source == source
    && (text.None? ==> observed.outcome == Unknown(missing))
    && (text.Some? && isVersion(text.value) ==> observed.outcome == Available(text.value))
    && (text.Some? && !isVersion(text.value) ==> observed.outcome == Invalid(InvalidVersionIdentity))
  }

  ghost predicate ItemsOf<T>(items: seq<T>, specifications: seq<string>, parse: string -> Parsed<T>) {
    |items| == |specifications| && forall i | 0 <= i < |items| :: Parsed(items[i]) == parse(specifications[i])
  }

  /** The metadata of a package, field by field; an empty version is a missing one. */
  lemma MetadataMeans<D(!new), R(!new)>(parsers: Parsers<D, R>, info: PackageInfo, m: Metadata<D, R>)
    ensures IsMetadataOf(parsers, info, m) <==>
      && m.name == info.name && m.base == info.base
      && IsVersionOf(
           m.version, AurExactPackage, if |info.version| == 0 then None else Some(info.version),
           MissingVersionMetadata, parsers.isVersion)
      && ItemsOf(m.depends, info.depends, parsers.dependency)
      && ItemsOf(m.makeDepends, info.makeDepends, parsers.dependency)
      && ItemsOf(m.checkDepends, info.checkDepends, parsers.dependency)
      && CapabilitiesAre(parsers, info, m)
      && RelationsAre(parsers, info, m)
  {
    CapabilitiesMean(parsers, info, m);
    if |m.relations| == |info.conflicts| + |info.replacements| {
      RelationsMean(parsers, info, m);
    }
  }

  ghost predicate CapabilitiesAre<D(!new), R(!new)>(parsers: Parsers<D, R>, info: PackageInfo, m: Metadata<D, R>) {
    && |m.provided| == |info.provided|
    && forall i | 0 <= i < |m.provided| ::
         && Parsed(m.provided[i].capability) == parsers.capability(info.provided[i])
         && IsVersionOf(
              m.provided[i].providedVersion, AurProviderCapability, m.provided[i].capability.version,
              UnversionedProviderCapability, parsers.isVersion)
  }

  /** The conflicts and after them the replacements. */
  ghost predicate RelationsAre<D(!new), R(!new)>(parsers: Parsers<D, R>, info: PackageInfo, m: Metadata<D, R>) {
    && |m.relations| == |info.conflicts| + |info.replacements|
    && forall i | 0 <= i < |m.relations| ::
         Parsed(m.relations[i]) ==
           if i < |info.conflicts| then parsers.relation(info.name, info.base, Conflict, info.conflicts[i])
           else parsers.relation(info.name, info.base, Replacement, info.replacements[i - |info.conflicts|])
  }

  lemma CapabilityMeans<D(!new), R(!new)>(
    parsers: Parsers<D, R>, specification: string, c: CapabilityMetadata)
    ensures ProvidedParser(parsers)(specification) == Parsed(c) <==>
      && Parsed(c.capability) == parsers.capability(specification)
      && IsVersionOf(
           c.providedVersion, AurProviderCapability, c.capability.version, UnversionedProviderCapability,
           parsers.isVersion)
  {
  }

  lemma CapabilitiesMean<D(!new), R(!new)>(parsers: Parsers<D, R>, info: PackageInfo, m: Metadata<D, R>)
    ensures Lists(m.provided, info.provided, ProvidedParser(parsers)) <==> CapabilitiesAre(parsers, info, m)
  {
    if |m.provided| == |info.provided| {
      forall i | 0 <= i < |m.provided| {
        CapabilityMeans(parsers, info.provided[i], m.provided[i]);
      }
    }
  }

  lemma RelationsMean<D(!new), R(!new)>(parsers: Parsers<D, R>, info: PackageInfo, m: Metadata<D, R>)
    requires |m.relations| == |info.conflicts| + |info.replacements|
    ensures RelationsAre(parsers, info, m) <==>
      && Lists(m.relations[..|info.conflicts|], info.conflicts, ConflictParser(parsers, info, Conflict))
      && Lists(m.relations[|info.conflicts|..], info.replacements, ConflictParser(parsers, info, Replacement))
  {
    var n := |info.conflicts|;
    if RelationsAre(parsers, info, m) {
      forall i | 0 <= i < |info.replacements|
        ensures parsers.relation(info.name, info.base, Replacement, info.replacements[i]) == Parsed(m.relations[n..][i])
      {
        assert m.relations[n..][i] == m.relations[i + n];
      }
    }
    if Lists(m.relations[..n], info.conflicts, ConflictParser(parsers, info, Conflict))
      && Lists(m.relations[n..], info.replacements, ConflictParser(parsers, info, Replacement))
    {
      forall i | 0 <= i < |m.relations|
        ensures Parsed(m.relations[i]) ==
          if i < n then parsers.relation(info.name, info.base, Conflict, info.conflicts[i])
          else parsers.relation(info.name, info.base, Replacement, info.replacements[i - n])
      {
        if i < n {
          assert m.relations[i] == m.relations[..n][i];
        } else {
          assert m.relations[i] == m.relations[n..][i - n];
        }
      }
    }
  }

  /** What the parser of capabilities must promise for no provider to be refused with an
      exception: a version it finds is one. */
  lemma VersionsParseMeans<D(!new), R(!new)>(parsers: Parsers<D, R>)
    ensures ParsesVersions(parsers) <==>
      forall s, raw, name, version ::
        parsers.capability(s) == Parsed(Capability(raw, name, Some(version))) ==> parsers.isVersion(version)
  {
    if !ParsesVersions(parsers) {
      var s :| parsers.capability(s).Parsed? && parsers.capability(s).value.version.Some?
        && !parsers.isVersion(parsers.capability(s).value.version.value);
      var c := parsers.capability(s).value;
      assert parsers.capability(s) == Parsed(Capability(c.raw, c.name, Some(c.version.value)));
    }
  }

  // ----- the choice -----

  /** The comparison that each operator asks for. */
  ghost predicate Meets(compare: Compare, version: string, c: Constraint) {
    var ordering := compare(version, c.version);
    || (c.operator in {LessThan, LessThanOrEqual} && ordering == Less)
    || (c.operator in {LessThanOrEqual, EqualTo, GreaterThanOrEqual} && ordering == Equal)
    || (c.operator in {GreaterThanOrEqual, GreaterThan} && ordering == Greater)
  }

  /** What each verdict says about the requirement and the version provided. */
  ghost predicate IsVerdict(e: Evaluation, requirement: Requirement, provided: ObservedVersion, compare: Compare) {
    && (e == Unconstrained <==> requirement.constraint == None)
    && (e == Satisfied <==>
          && requirement.constraint.Some? && provided.outcome.Available?
          && Meets(compare, provided.outcome.version, requirement.constraint.value))
    && (e == Unsatisfied <==>
          && requirement.constraint.Some? && provided.outcome.Available?
          && !Meets(compare, provided.outcome.version, requirement.constraint.value))
    && (e.UnknownVersion? <==> requirement.constraint.Some? && provided.outcome.Unknown?)
    && (e.UnknownVersion? ==> e.reason == provided.outcome.reason)
    && (e.InvalidVersion? <==> requirement.constraint.Some? && provided.outcome.Invalid?)
    && (e.InvalidVersion? ==> e.why == provided.outcome.why)
  }

  lemma VerdictMeans(requirement: Requirement, provided: ObservedVersion, compare: Compare)
    ensures forall e :: e == Evaluate(requirement, provided, compare) <==>
      IsVerdict(e, requirement, provided, compare)
  {
    forall e | IsVerdict(e, requirement, provided, compare) ensures e == Evaluate(requirement, provided, compare) {
      if requirement.constraint.Some? {
        match provided.outcome {
          case Available(version) =>
          case Unknown(reason) => assert e.UnknownVersion?;
          case Invalid(why) => assert e.InvalidVersion?;
        }
      }
    }
  }

  /** Capability `k` is the first of the name. */
  ghost predicate IsFirstOffer(provided: seq<CapabilityMetadata>, name: string, k: nat) {
    && k < |provided| && provided[k].capability.name == name
    && forall i | 0 <= i < k :: provided[i].capability.name != name
  }

  ghost predicate OffersNone(provided: seq<CapabilityMetadata>, name: string) {
    forall i | 0 <= i < |provided| :: provided[i].capability.name != name
  }

  lemma {:induction false} FindMeans(provided: seq<CapabilityMetadata>, name: string) returns (k: nat)
    ensures FindCapability(provided, name).None? <==> OffersNone(provided, name)
    ensures FindCapability(provided, name).Some? ==>
      IsFirstOffer(provided, name, k) && FindCapability(provided, name) == Some(provided[k])
  {
    k := 0;
    if provided != [] && provided[0].capability.name != name {
      var tail := provided[1..];
      var inTail := FindMeans(tail, name);
      k := inTail + 1;
      forall i | 0 < i < |provided| ensures provided[i] == tail[i - 1] {
      }
      if OffersNone(tail, name) {
        assert OffersNone(provided, name);
      }
    }
  }

  /** The versions agree with where they come from and with the capability. */
  ghost predicate HasSoundVersions(packageVersion: ObservedVersion, c: CapabilityMetadata) {
    && packageVersion.source == AurExactPackage && c.providedVersion.source == AurProviderCapability
    && (c.capability.version.Some? ==> c.providedVersion.outcome == Available(c.capability.version.value))
    && (c.capability.version.None? ==> c.providedVersion.outcome == Unknown(UnversionedProviderCapability))
  }

  /** The provider as it comes from the package and one of its capabilities. */
  ghost predicate IsProviderFrom<D, R>(p: Provider, m: Metadata<D, R>, c: CapabilityMetadata) {
    && p.origin == FromAur && p.packageName == m.name && p.packageBase == m.base
    && p.dependencyName == c.capability.name && p.specification == c.capability.raw
    && (m.version.outcome.Available? ==> p.packageVersion == Some(m.version.outcome.version))
    && (!m.version.outcome.Available? ==> p.packageVersion == None)
    && p.constraint.Some? && p.constraint.value.capability == c.capability
    && p.constraint.value.packageVersion == m.version && p.constraint.value.providedVersion == c.providedVersion
  }

  ghost predicate IsChoice<D, R>(
    p: Projection, requirement: Requirement, m: Metadata<D, R>, k: nat, compare: Compare)
  {
    && IsFirstOffer(m.provided, requirement.name, k) && HasSoundVersions(m.version, m.provided[k])
    && p.requirement == requirement && IsProviderFrom(p.provider, m, m.provided[k])
    && IsVerdict(p.evaluation, requirement, m.provided[k].providedVersion, compare)
  }

  /** What is chosen from metadata: the first capability of the required name, with the
      verdict on its version; nothing where none has it or its versions are unsound. */
  lemma ChoiceMeans<D, R>(requirement: Requirement, m: Metadata<D, R>, compare: Compare) returns (k: nat)
    ensures var r := ProjectAvailable(requirement, m, compare);
      && (r.Chosen? <==>
            IsFirstOffer(m.provided, requirement.name, k) && HasSoundVersions(m.version, m.provided[k]))
      && (r.Chosen? ==> IsChoice(r.projection, requirement, m, k, compare))
      && (r.Thrown? <==>
            IsFirstOffer(m.provided, requirement.name, k) && !HasSoundVersions(m.version, m.provided[k]))
      && (r.NotChosen? <==> OffersNone(m.provided, requirement.name))
      && (r.NotChosen? ==> IsRefusal(r, requirement, m.name, Some(m.base), MatchingCapabilityMissing, None))
      && !r.UnknownProvider?
  {
    k := FindMeans(m.provided, requirement.name);
    if OffersNone(m.provided, requirement.name) {
      assert !IsFirstOffer(m.provided, requirement.name, k);
    } else {
      VerdictMeans(requirement, m.provided[k].providedVersion, compare);
    }
  }

  ghost predicate IsRefusal(
    r: ProviderResult, requirement: Requirement, name: string, base: Option<string>, kind: FailureKind,
    failure: Option<ParseFailure>)
  {
    && r.NotChosen? && r.requirement == requirement && r.packageName == name && r.packageBase == base
    && r.kind == kind && r.metadataFailure == failure
  }

  ghost predicate IsUnknown(
    r: ProviderResult, requirement: Requirement, name: string, base: Option<string>, reason: UnknownReason)
  {
    && r.UnknownProvider? && r.requirement == requirement && r.packageName == name && r.packageBase == base
    && r.reason == reason
  }

  /** Without metadata there is no choice, only a record of the candidate. */
  lemma ProjectMeans<D, R>(requirement: Requirement, candidate: Candidate<D, R>, compare: Compare)
    ensures var r := ProjectProvider(requirement, candidate, compare);
      match candidate
      case CandidateMetadata(m) => r == ProjectAvailable(requirement, m, compare)
      case CandidateUnavailable(name, base, reason) => IsUnknown(r, requirement, name, base, reason)
      case CandidateFailure(f) =>
        IsRefusal(r, requirement, f.name, Some(f.base), InvalidCandidateMetadata, Some(f.reason))
  {
  }

  // ----- the refresh -----

  /** The candidate is about another package than the one selected: of what it names,
      something differs. */
  ghost predicate IsAboutAnother<D, R>(p: Provider, current: Candidate<D, R>) {
    match current
    case CandidateMetadata(m) => m.name != p.packageName || m.base != p.packageBase
    case CandidateUnavailable(name, base, _) =>
      (|name| > 0 && name != p.packageName) || (base.Some? && base != Some(p.packageBase))
    case CandidateFailure(f) =>
      (|f.name| > 0 && f.name != p.packageName) || (|f.base| > 0 && f.base != p.packageBase)
  }

  /** The capability is the one selected, spelt alike and with the same version. */
  ghost predicate IsTheSameOffer(p: Provider, c: CapabilityMetadata) {
    && p.dependencyName == c.capability.name && p.specification == c.capability.raw && p.constraint.Some?
    && p.constraint.value.capability == c.capability && p.constraint.value.providedVersion == c.providedVersion
  }

  ghost predicate IsChanged(r: ProviderResult, selected: Projection) {
    IsRefusal(
      r, selected.requirement, selected.provider.packageName, Some(selected.provider.packageBase),
      ProviderIdentityChanged, None)
  }

  /** A refresh of a provider, whatever the candidate. */
  lemma RefreshMeans<D, R>(selected: Projection, current: Candidate<D, R>, compare: Compare) returns (k: nat)
    ensures var p, r := selected.provider, Refresh(selected, current, compare);
      if p.origin.FromRepository? || IsAboutAnother(p, current) then IsChanged(r, selected)
      else
        match current
        case CandidateUnavailable(_, _, reason) =>
          IsUnknown(r, selected.requirement, p.packageName, Some(p.packageBase), reason)
        case CandidateFailure(f) =>
          IsRefusal(
            r, selected.requirement, p.packageName, Some(p.packageBase), InvalidCandidateMetadata, Some(f.reason))
        case CandidateMetadata(m) => IsRefreshedFrom(r, selected, m, k, compare)
  {
    k := 0;
    if current.CandidateMetadata? {
      k := ChoiceMeans(selected.requirement, current.metadata, compare);
    }
  }

  /** Refreshed from the same package: its first capability of the name must be the one
      selected. */
  ghost predicate IsRefreshedFrom<D, R>(
    r: ProviderResult, selected: Projection, m: Metadata<D, R>, k: nat, compare: Compare)
  {
    var p := selected.provider;
    if OffersNone(m.provided, selected.requirement.name) then
      IsRefusal(r, selected.requirement, p.packageName, Some(p.packageBase), MatchingCapabilityMissing, None)
    else
      && IsFirstOffer(m.provided, selected.requirement.name, k)
      && if !HasSoundVersions(m.version, m.provided[k]) then r.Thrown?
         else if !IsTheSameOffer(p, m.provided[k]) then IsChanged(r, selected)
         else r.Chosen? && IsChoice(r.projection, selected.requirement, m, k, compare)
  }

  /** Through any refreshes the verdict is the one the operator of the requirement gives
      on the version that the chosen candidate provided. */
  lemma VerdictStays<D, R>(
    requirement: Requirement, chosen: Candidate<D, R>, later: seq<Candidate<D, R>>, compare: Compare)
    returns (k: nat)
    requires chosen.CandidateMetadata? && ProjectProvider(requirement, chosen, compare).Chosen?
    requires RefreshAll(ProjectProvider(requirement, chosen, compare).projection, later, compare).Some?
    ensures var m := chosen.metadata;
      var last := RefreshAll(ProjectProvider(requirement, chosen, compare).projection, later, compare).value;
      && IsFirstOffer(m.provided, requirement.name, k) && last.requirement == requirement
      && last.provider.packageName == m.name && last.provider.packageBase == m.base
      && IsTheSameOffer(last.provider, m.provided[k])
      && IsVerdict(last.evaluation, requirement, m.provided[k].providedVersion, compare)
  {
    k := ChoiceMeans(requirement, chosen.metadata, compare);
    RefreshedIsAsChosen(requirement, chosen, later, compare);
  }
}
