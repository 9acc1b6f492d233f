/** What the loader makes of the records the exporter prints. */
module CliRoundTrip {
  import opened Wrappers
  import opened TextLists
  import opened CliAuthority
  import opened CompletionLoader

  // ----- wire names and numbers hold no separator -----

  predicate IsSeparator(c: char) {
    c in {'\t', ',', ':', '+'} || IsLineEnd(c)
  }

  lemma WireNameFree(name: string, c: char)
    requires IsWireName(name) && IsSeparator(c)
    ensures Free(name, c)
  {
  }

  lemma DecimalFree(n: nat, c: char)
    requires IsSeparator(c)
    ensures Free(Decimal(n), c) && Decimal(n) != "*"
  {
    assert !IsDigit(c);
    assert "*"[0] in "*";
  }

  lemma WireConcat(a: string, b: string)
    requires IsWireName(a) && IsWireName(b)
    ensures IsWireName(a + b)
  {
  }

  lemma OneWordIsWire(kind: OperandKind)
    requires kind in {NoOperand, Package, Directory, Query}
    ensures IsWireName(KindName(kind))
  {
    match kind
    case NoOperand => assert IsWireName("none");
    case Package => assert IsWireName("package");
    case Directory => assert IsWireName("directory");
    case Query => assert IsWireName("query");
  }

  lemma TwoWordsAreWire(kind: OperandKind)
    requires kind in {PatchDirectory, PatchFile, PackageBase, EnvironmentAssignment}
    ensures IsWireName(KindName(kind))
  {
    match kind
    case PatchDirectory => WireConcat("patch-", "directory");
    case PatchFile => WireConcat("patch-", "file");
    case PackageBase => WireConcat("package-", "base");
    case EnvironmentAssignment => WireConcat("environment-", "assignment");
  }

  lemma ThreeWordsAreWire(kind: OperandKind)
    requires kind in {SourcePreferenceItem, DelegatedPacmanArgument}
    ensures IsWireName(KindName(kind))
  {
    match kind
    case SourcePreferenceItem => WireConcat("source-", "preference-item");
    case DelegatedPacmanArgument => WireConcat("delegated-pacman-", "argument");
  }

  lemma KindIsWire(kind: OperandKind)
    ensures IsWireName(KindName(kind))
  {
    if kind in {NoOperand, Package, Directory, Query} {
      OneWordIsWire(kind);
    } else if kind in {SourcePreferenceItem, DelegatedPacmanArgument} {
      ThreeWordsAreWire(kind);
    } else {
      TwoWordsAreWire(kind);
    }
  }

  lemma KindIsKnown(kind: OperandKind)
    ensures KindName(kind) in KNOWN_OPERAND_KINDS
  {
  }

  lemma PolicyIsWire(policy: TargetPolicy)
    ensures IsWireName(PolicyName(policy))
  {
    match policy
    case NoTarget => assert IsWireName("none");
    case ExactlyOne => assert IsWireName("exactly-one");
    case OneOrMore => assert IsWireName("one-or-more");
    case OrderedItems => assert IsWireName("ordered-items");
    case FixedSequence => assert IsWireName("fixed-sequence");
    case DelegatedTarget => assert IsWireName("delegated");
  }

  lemma OrderingIsWire(ordering: Ordering)
    ensures IsWireName(OrderingName(ordering))
  {
    match ordering
    case NoOrdering => assert IsWireName("none");
    case PreserveInputOrder => assert IsWireName("preserve-input-order");
    case PrimaryThenEnvironmentAssignments => WireConcat("primary-then-", "environment-assignments");
    case PackageIntroducesFollowingAssignmentScope => WireConcat("package-introduces-", "following-assignment-scope");
    case DelegatedOrdering => assert IsWireName("delegated");
  }

  lemma RequirementIsWire(requirement: Requirement)
    ensures IsWireName(RequirementName(requirement)) && RequirementName(requirement) in KNOWN_RELATION_REQUIREMENTS
  {
  }

  lemma OccurrenceIsWire(occurrence: CliAuthority.Occurrence)
    ensures IsWireName(OccurrenceName(occurrence)) && OccurrenceName(occurrence) in KNOWN_OPTION_OCCURRENCES
  {
    match occurrence
    case Once => assert IsWireName("once");
    case RepeatIdempotent => assert IsWireName("repeat-idempotent");
    case RepeatSameValue => assert IsWireName("repeat-same-value");
    case DelegatedOccurrence => assert IsWireName("delegated");
  }

  lemma SyntaxIsWire(syntax: PublicSyntax)
    ensures IsWireName(SyntaxName(syntax)) && SyntaxName(syntax) in KNOWN_PUBLIC_SYNTAX
  {
  }

  lemma ForwardingIsWire(forwarding: ForwardingOccurrence)
    ensures IsWireName(ForwardingName(forwarding)) && ForwardingName(forwarding) in KNOWN_FORWARDING_OCCURRENCES
  {
    match forwarding
    case NoForwarding => assert IsWireName("none");
    case PreserveAll => assert IsWireName("preserve-all");
    case ConsolidateSingle => assert IsWireName("consolidate-single");
  }

  lemma TailIsWire(tail: TailPolicy)
    ensures IsWireName(TailName(tail)) && TailName(tail) in KNOWN_DELEGATED_TAIL_POLICIES
  {
  }

  // ----- numbers -----

  lemma {:induction false} OnlyDigitsOfDigits(s: string)
    requires AllDigits(s)
    ensures OnlyDigits(s) == s
  {
    if s != "" {
      assert s[|s| - 1] in s;
      OnlyDigitsOfDigits(s[..|s| - 1]);
    }
  }

  lemma DigitsAreTrimmed(s: string)
    requires s != "" && AllDigits(s)
    ensures TrimEnd(TrimStart(s)) == s
    ensures s[0] != '+' && s[0] != '-' && IsGroupedDigits(s)
  {
    assert s[0] in s && s[|s| - 1] in s;
    forall i | 0 <= i < |s| ensures IsDigit(s[i]) {
      assert s[i] in s;
    }
    assert !IsSpace(s[0]) && !IsSpace(s[|s| - 1]);
  }

  lemma IntRoundTrip(n: nat)
    ensures ParseInt(Decimal(n)) == Some(n)
  {
    DigitsAreTrimmed(Decimal(n));
    OnlyDigitsOfDigits(Decimal(n));
    DecimalRoundTrip(n);
  }

  // ----- masks -----

  /** The names in a table, and the word for none of them. */
  ghost function Known(names: MaskTable): set<string> {
    {"none"} + set i | 0 <= i < |names| :: names[i].1
  }

  function BitOf(name: string, names: MaskTable): bv32 {
    if names == [] then 0
    else if names[|names| - 1].1 == name then names[|names| - 1].0
    else BitOf(name, names[..|names| - 1])
  }

  function Or(a: bv32, b: bv32): bv32 {
    a | b
  }

  /** The bits that parsed names stand for. */
  function MaskOf(parsed: seq<string>, names: MaskTable): bv32 {
    if parsed == [] then 0 else Or(MaskOf(parsed[..|parsed| - 1], names), BitOf(parsed[|parsed| - 1], names))
  }

  lemma {:induction false} BitOfEntry(names: MaskTable, i: nat)
    requires IsMaskTable(names) && i < |names|
    ensures BitOf(names[i].1, names) == names[i].0
    decreases |names|
  {
    if i < |names| - 1 {
      BitOfEntry(names[..|names| - 1], i);
    }
  }

  lemma TakeBit(whole: bv32, taken: bv32, left: bv32, bit: bv32)
    requires Or(taken, left) == whole && IsSingleBit(bit) && Overlaps(left, bit)
    ensures Or(Or(taken, bit), Cleared(left, bit)) == whole
  {
    assert left & bit == bit;
  }

  /** The next name in the table takes its bit, or there is none to take. */
  lemma TakeNext(mask: bv32, names: MaskTable, n: nat)
    requires IsMaskTable(names) && n < |names|
    requires Or(MaskOf(SetNames(mask, names, n), names), Leftover(mask, names, n)) == mask
    ensures Or(MaskOf(SetNames(mask, names, n + 1), names), Leftover(mask, names, n + 1)) == mask
  {
    var before, left, bit := SetNames(mask, names, n), Leftover(mask, names, n), names[n].0;
    if Overlaps(left, bit) {
      TakeBit(mask, MaskOf(before, names), left, bit);
      NextSetName(mask, names, n);
      MaskOfMore(before, names, n);
    } else {
      UntakenBit(left, bit);
      assert SetNames(mask, names, n + 1) == before;
    }
  }

  /** What was taken by name and what is left over make up the mask. */
  lemma {:induction false} TakenAndLeft(mask: bv32, names: MaskTable, n: nat)
    requires IsMaskTable(names) && n <= |names|
    ensures Or(MaskOf(SetNames(mask, names, n), names), Leftover(mask, names, n)) == mask
  {
    if n == 0 {
      ZeroOr(mask);
    } else {
      TakenAndLeft(mask, names, n - 1);
      TakeNext(mask, names, n - 1);
    }
  }

  lemma MaskOfMore(before: seq<string>, names: MaskTable, i: nat)
    requires IsMaskTable(names) && i < |names|
    ensures MaskOf(before + [names[i].1], names) == Or(MaskOf(before, names), names[i].0)
  {
    BitOfEntry(names, i);
    assert (before + [names[i].1])[..|before|] == before;
  }

  lemma ZeroOr(mask: bv32)
    ensures Or(0, mask) == mask && Or(mask, 0) == mask
  {
  }

  function AllBits(names: MaskTable, n: nat): bv32
    requires n <= |names|
  {
    if n == 0 then 0 else Or(AllBits(names, n - 1), names[n - 1].0)
  }

  /** Every bit of the mask has a name. */
  predicate IsNamed(mask: bv32, names: MaskTable) {
    Cleared(mask, AllBits(names, |names|)) == 0
  }

  lemma ClearTwice(mask: bv32, a: bv32, b: bv32)
    ensures Cleared(Cleared(mask, a), b) == Cleared(mask, Or(a, b))
    ensures Cleared(mask, 0) == mask
  {
  }

  lemma {:induction false} LeftoverIsUnnamed(mask: bv32, names: MaskTable, n: nat)
    requires n <= |names|
    ensures Leftover(mask, names, n) == Cleared(mask, AllBits(names, n))
  {
    if n == 0 {
      ClearTwice(mask, 0, 0);
    } else {
      LeftoverIsUnnamed(mask, names, n - 1);
      ClearTwice(mask, AllBits(names, n - 1), names[n - 1].0);
    }
  }

  /** The bits that come back from the printed names are the mask itself. */
  lemma MaskRecovered(mask: bv32, names: MaskTable)
    requires IsMaskTable(names) && IsNamed(mask, names)
    ensures MaskOf(MaskNames(mask, names), names) == mask
  {
    LeftoverIsUnnamed(mask, names, |names|);
    TakenAndLeft(mask, names, |names|);
    if mask == 0 {
      NoneHasNoBit(names);
      assert ["none"][..0] == [];
      ZeroOr(0);
    } else {
      assert MaskNames(mask, names) == SetNames(mask, names, |names|);
      ZeroOr(MaskOf(SetNames(mask, names, |names|), names));
    }
  }

  lemma {:induction false} NoneHasNoBit(names: MaskTable)
    requires IsMaskTable(names)
    ensures BitOf("none", names) == 0
  {
    if names != [] {
      NoneHasNoBit(names[..|names| - 1]);
    }
  }

  /** The name is one of the first `n` in the table. */
  predicate Named(name: string, names: MaskTable, n: nat)
    requires n <= |names|
  {
    exists i | 0 <= i < n :: names[i].1 == name
  }

  lemma {:induction false} SetNamesExact(mask: bv32, names: MaskTable, n: nat)
    requires IsMaskTable(names) && n <= |names|
    ensures forall k | 0 <= k < |SetNames(mask, names, n)| :: Named(SetNames(mask, names, n)[k], names, n)
    ensures AreDistinct(SetNames(mask, names, n))
  {
    if n > 0 {
      SetNamesExact(mask, names, n - 1);
      var before, after := SetNames(mask, names, n - 1), SetNames(mask, names, n);
      forall k | 0 <= k < |after| ensures Named(after[k], names, n) {
        if k < |before| {
          assert Named(before[k], names, n - 1);
        } else {
          assert after[k] == names[n - 1].1;
        }
      }
    }
  }

  lemma MaskNamesPlain(mask: bv32, names: MaskTable)
    requires IsMaskTable(names)
    ensures MaskNames(mask, names) != []
    ensures forall k | 0 <= k < |MaskNames(mask, names)| :: IsWireName(MaskNames(mask, names)[k])
  {
    SetNamesExact(mask, names, |names|);
    assert IsWireName("none") && IsWireName("unknown");
    if mask != 0 && Leftover(mask, names, |names|) == 0 && SetNames(mask, names, |names|) == [] {
      TakenAndLeft(mask, names, |names|);
      ZeroOr(0);
    }
  }

  lemma MaskSplits(mask: bv32, names: MaskTable)
    requires IsMaskTable(names)
    ensures MaskText(mask, names) != "" && Split(MaskText(mask, names), '+') == MaskNames(mask, names)
  {
    var all := MaskNames(mask, names);
    MaskNamesPlain(mask, names);
    forall p | p in all ensures Free(p, '+') {
      WireNameFree(p, '+');
    }
    SplitJoin(all, '+');
    JoinNotEmpty(all, '+');
  }

  lemma NamedMaskKnown(mask: bv32, names: MaskTable)
    requires IsMaskTable(names) && IsNamed(mask, names)
    ensures var all := MaskNames(mask, names);
      && AreDistinct(all) && AreKnown(all, Known(names))
      && ("none" in all ==> |all| == 1)
  {
    var all := MaskNames(mask, names);
    LeftoverIsUnnamed(mask, names, |names|);
    SetNamesExact(mask, names, |names|);
    if mask != 0 {
      assert all == SetNames(mask, names, |names|);
      forall k | 0 <= k < |all| ensures all[k] in Known(names) && all[k] != "none" {
        assert Named(all[k], names, |names|);
      }
    }
  }

  lemma UnnamedMaskUnknown(mask: bv32, names: MaskTable)
    requires IsMaskTable(names) && !IsNamed(mask, names)
    ensures var all := MaskNames(mask, names); all != [] && all[|all| - 1] !in Known(names)
  {
    LeftoverIsUnnamed(mask, names, |names|);
    ZeroIsNamed(names);
    var all := MaskNames(mask, names);
    assert all[|all| - 1] == "unknown" && "unknown" != "none";
  }

  predicate IsNameSet(names: seq<string>, known: set<string>) {
    && names != [] && AreDistinct(names) && AreKnown(names, known)
    && ("none" in names ==> |names| == 1)
  }

  lemma NameSetParses(value: string, names: seq<string>, known: set<string>)
    requires value != "" && Split(value, '+') == names
    ensures ParseNameSet(value, known) == if IsNameSet(names, known) then Some(names) else None
  {
  }

  /** The loader takes the names of a mask back exactly when every bit is named. */
  lemma MaskRoundTrip(mask: bv32, names: MaskTable)
    requires IsMaskTable(names)
    ensures ParseNameSet(MaskText(mask, names), Known(names)) ==
      if IsNamed(mask, names) then Some(MaskNames(mask, names)) else None
  {
    MaskSplits(mask, names);
    NameSetParses(MaskText(mask, names), MaskNames(mask, names), Known(names));
    NamedMaskIsNameSet(mask, names);
  }

  lemma NamedMaskIsNameSet(mask: bv32, names: MaskTable)
    requires IsMaskTable(names)
    ensures IsNamed(mask, names) <==> IsNameSet(MaskNames(mask, names), Known(names))
  {
    MaskNamesPlain(mask, names);
    if IsNamed(mask, names) {
      NamedMaskKnown(mask, names);
    } else {
      UnnamedMaskUnknown(mask, names);
    }
  }

  lemma ZeroIsNamed(names: MaskTable)
    ensures IsNamed(0, names)
  {
  }

  lemma JoinNotEmpty(parts: seq<string>, c: char)
    requires parts != [] && parts[0] != ""
    ensures Join(parts, c) != ""
  {
  }

  // ----- terms and relations -----

  /** What the loader should hold for a term. */
  function LoadedTermOf(term: OperandTerm): LoadedTerm {
    LoadedTerm(KindName(term.kind), term.minCount, if term.maxCount == UNBOUNDED then None else Some(term.maxCount))
  }

  predicate HasRange(term: OperandTerm) {
    term.maxCount == UNBOUNDED || term.minCount <= term.maxCount
  }

  /** A term comes back unless its range is empty, and then it is refused. */
  lemma TermRoundTrip(term: OperandTerm)
    ensures TermOf(TermText(term)) == if HasRange(term) then Some(LoadedTermOf(term)) else None
  {
    var fields := TermFields(term);
    KindIsWire(term.kind);
    KindIsKnown(term.kind);
    WireNameFree(KindName(term.kind), ':');
    DecimalFree(term.minCount, ':');
    DecimalFree(term.maxCount, ':');
    SplitJoin(fields, ':');
    IntRoundTrip(term.minCount);
    IntRoundTrip(term.maxCount);
  }

  predicate HasRanges(terms: seq<OperandTerm>) {
    forall i | 0 <= i < |terms| :: HasRange(terms[i])
  }

  function LoadedTermsOf(terms: seq<OperandTerm>): (r: seq<LoadedTerm>)
    ensures |r| == |terms|
  {
    seq(|terms|, i requires 0 <= i < |terms| => LoadedTermOf(terms[i]))
  }

  predicate EachParses<T>(items: seq<string>, parse: string -> Option<T>) {
    forall i | 0 <= i < |items| :: parse(items[i]).Some?
  }

  lemma {:induction false} ParseAllPointwise<T>(items: seq<string>, parse: string -> Option<T>, loaded: seq<T>)
    requires |items| == |loaded|
    requires forall i | 0 <= i < |items| :: parse(items[i]).Some? ==> parse(items[i]).value == loaded[i]
    ensures ParseAll(items, parse) == if EachParses(items, parse) then Some(loaded) else None
  {
    if items != [] {
      var n := |items| - 1;
      ParseAllPointwise(items[..n], parse, loaded[..n]);
      assert EachParses(items, parse) <==> EachParses(items[..n], parse) && parse(items[n]).Some?;
      assert loaded == loaded[..n] + [loaded[n]];
    } else {
      assert loaded == [];
    }
  }

  lemma TermsRoundTrip(terms: seq<OperandTerm>)
    ensures ParseAll(TermTexts(terms), TermOf) == if HasRanges(terms) then Some(LoadedTermsOf(terms)) else None
  {
    var items, loaded := TermTexts(terms), LoadedTermsOf(terms);
    forall i | 0 <= i < |terms|
      ensures TermOf(items[i]) == if HasRange(terms[i]) then Some(loaded[i]) else None
    {
      TermRoundTrip(terms[i]);
    }
    ParseAllPointwise(items, TermOf, loaded);
    assert EachParses(items, TermOf) <==> HasRanges(terms);
  }

  function LoadedRelationOf(r: Relation): LoadedRelation {
    LoadedRelation(
      r.option, RequirementName(r.requirement), OccurrenceName(r.occurrence), SyntaxName(r.publicSyntax),
      MaskNames(r.effects, EFFECTS), MaskNames(r.targets, FORWARDING_TARGETS), ForwardingName(r.forwarding))
  }

  /** Every bit of both masks has a name. */
  predicate HasNames(r: Relation) {
    IsNamed(r.effects, EFFECTS) && IsNamed(r.targets, FORWARDING_TARGETS)
  }

  predicate HasWireNames(names: MaskTable) {
    forall i | 0 <= i < |names| :: IsWireName(names[i].1)
  }

  lemma EffectNamesAreWire()
    ensures HasWireNames(EFFECTS)
  {
    var e := EFFECTS;
    assert IsWireName(e[0].1) && IsWireName(e[1].1) && IsWireName(e[2].1) && IsWireName(e[3].1);
  }

  /** Names of pairwise different lengths, none of them as long as a reserved word. */
  lemma EffectNamesDiffer()
    ensures forall i | 0 <= i < |EFFECTS| :: EFFECTS[i].1 != "none" && EFFECTS[i].1 != "unknown"
    ensures forall i, j | 0 <= i < j < |EFFECTS| :: EFFECTS[i].1 != EFFECTS[j].1
  {
    var e := EFFECTS;
    assert |e[0].1| == 14 && |e[1].1| == 17 && |e[2].1| == 22 && |e[3].1| == 15;
  }

  lemma EffectBitsDiffer()
    ensures forall i | 0 <= i < |EFFECTS| :: IsSingleBit(EFFECTS[i].0)
    ensures forall i, j | 0 <= i < j < |EFFECTS| :: EFFECTS[i].0 != EFFECTS[j].0
  {
  }

  lemma EffectsAreATable()
    ensures IsMaskTable(EFFECTS)
  {
    EffectBitsDiffer();
    EffectNamesAreWire();
    EffectNamesDiffer();
  }

  lemma EffectsAreKnown()
    ensures Known(EFFECTS) == KNOWN_SEMANTIC_EFFECTS
  {
    var e := EFFECTS;
    assert Known(e) == {"none", e[0].1, e[1].1, e[2].1, e[3].1};
  }

  lemma TargetNamesAreWire()
    ensures HasWireNames(FORWARDING_TARGETS)
  {
    var t := FORWARDING_TARGETS;
    assert IsWireName(t[0].1) && IsWireName(t[1].1) && IsWireName(t[2].1);
  }

  lemma TargetNamesDiffer()
    ensures forall i | 0 <= i < |FORWARDING_TARGETS| ::
      FORWARDING_TARGETS[i].1 != "none" && FORWARDING_TARGETS[i].1 != "unknown"
    ensures forall i, j | 0 <= i < j < |FORWARDING_TARGETS| :: FORWARDING_TARGETS[i].1 != FORWARDING_TARGETS[j].1
  {
    var t := FORWARDING_TARGETS;
    assert |t[0].1| == 6 && |t[1].1| == 7 && |t[2].1| == 20;
    assert t[1].1[0] == 'm';
  }

  lemma TargetsAreATable()
    ensures IsMaskTable(FORWARDING_TARGETS)
  {
    TargetNamesAreWire();
    TargetNamesDiffer();
  }

  lemma TargetsAreKnown()
    ensures Known(FORWARDING_TARGETS) == KNOWN_FORWARDING_TARGETS
  {
    var t := FORWARDING_TARGETS;
    assert Known(t) == {"none", t[0].1, t[1].1, t[2].1};
  }

  predicate HasKnownWords(fields: seq<string>)
    requires |fields| == 7
  {
    && fields[1] in KNOWN_RELATION_REQUIREMENTS && fields[2] in KNOWN_OPTION_OCCURRENCES
    && fields[3] in KNOWN_PUBLIC_SYNTAX && fields[6] in KNOWN_FORWARDING_OCCURRENCES
  }

  lemma RelationParses(text: string, fields: seq<string>)
    requires Split(text, ':') == fields && |fields| == 7 && HasKnownWords(fields)
    ensures var identity := ParseIdentity(fields[0]);
      var effects := ParseNameSet(fields[4], KNOWN_SEMANTIC_EFFECTS);
      var targets := ParseNameSet(fields[5], KNOWN_FORWARDING_TARGETS);
      RelationOf(text) ==
        if identity.None? || effects.None? || targets.None? then None
        else Some(LoadedRelation(
          identity.value, fields[1], fields[2], fields[3], effects.value, targets.value, fields[6]))
  {
  }

  lemma RelationWordsKnown(r: Relation)
    ensures HasKnownWords(RelationFields(r)) && ParseIdentity(RelationFields(r)[0]) == Some(r.option)
  {
    RequirementIsWire(r.requirement);
    OccurrenceIsWire(r.occurrence);
    SyntaxIsWire(r.publicSyntax);
    ForwardingIsWire(r.forwarding);
    IntRoundTrip(r.option);
  }

  lemma RelationMasksParse(r: Relation)
    ensures ParseNameSet(RelationFields(r)[4], KNOWN_SEMANTIC_EFFECTS) ==
      if IsNamed(r.effects, EFFECTS) then Some(MaskNames(r.effects, EFFECTS)) else None
    ensures ParseNameSet(RelationFields(r)[5], KNOWN_FORWARDING_TARGETS) ==
      if IsNamed(r.targets, FORWARDING_TARGETS) then Some(MaskNames(r.targets, FORWARDING_TARGETS)) else None
  {
    EffectsAreATable();
    EffectsAreKnown();
    MaskRoundTrip(r.effects, EFFECTS);
    TargetsAreATable();
    TargetsAreKnown();
    MaskRoundTrip(r.targets, FORWARDING_TARGETS);
  }

  /** A relation comes back unless a mask has a bit without a name. */
  lemma RelationRoundTrip(r: Relation)
    ensures RelationOf(Join(RelationFields(r), ':')) == if HasNames(r) then Some(LoadedRelationOf(r)) else None
  {
    var fields := RelationFields(r);
    RelationSplits(r);
    RelationWordsKnown(r);
    RelationMasksParse(r);
    RelationParses(Join(fields, ':'), fields);
  }

  lemma RelationSplits(r: Relation)
    ensures Split(Join(RelationFields(r), ':'), ':') == RelationFields(r)
  {
    var fields := RelationFields(r);
    RelationFieldsFree(r, ':');
    SplitJoin(fields, ':');
  }

  /** No field of a relation holds a separator of an outer list. */
  lemma RelationFieldsFree(r: Relation, c: char)
    requires IsSeparator(c) && c != '+'
    ensures forall f | f in RelationFields(r) :: Free(f, c)
  {
    EffectsAreATable();
    TargetsAreATable();
    DecimalFree(r.option, c);
    RequirementIsWire(r.requirement);
    WireNameFree(RequirementName(r.requirement), c);
    OccurrenceIsWire(r.occurrence);
    WireNameFree(OccurrenceName(r.occurrence), c);
    SyntaxIsWire(r.publicSyntax);
    WireNameFree(SyntaxName(r.publicSyntax), c);
    ForwardingIsWire(r.forwarding);
    WireNameFree(ForwardingName(r.forwarding), c);
    MaskFree(r.effects, EFFECTS, c);
    MaskFree(r.targets, FORWARDING_TARGETS, c);
  }

  lemma MaskFree(mask: bv32, names: MaskTable, c: char)
    requires IsMaskTable(names) && IsSeparator(c) && c != '+'
    ensures Free(MaskText(mask, names), c)
  {
    var all := MaskNames(mask, names);
    MaskNamesPlain(mask, names);
    forall p | p in all ensures Free(p, c) {
      WireNameFree(p, c);
    }
    JoinFree(all, '+', c);
  }

  lemma {:induction false} JoinFree(parts: seq<string>, separator: char, c: char)
    requires separator != c && forall p | p in parts :: Free(p, c)
    ensures Free(Join(parts, separator), c)
  {
    if parts != [] {
      assert parts[0] in parts;
      JoinFree(parts[1..], separator, c);
    }
  }

  function LoadedRelationsOf(relations: seq<Relation>): (r: seq<LoadedRelation>)
    ensures |r| == |relations|
  {
    seq(|relations|, i requires 0 <= i < |relations| => LoadedRelationOf(relations[i]))
  }

  predicate HaveNames(relations: seq<Relation>) {
    forall i | 0 <= i < |relations| :: HasNames(relations[i])
  }

  lemma RelationsRoundTrip(relations: seq<Relation>)
    ensures ParseAll(RelationTexts(relations), RelationOf) ==
      if HaveNames(relations) then Some(LoadedRelationsOf(relations)) else None
  {
    var items, loaded := RelationTexts(relations), LoadedRelationsOf(relations);
    forall i | 0 <= i < |relations|
      ensures RelationOf(items[i]) == if HasNames(relations[i]) then Some(loaded[i]) else None
    {
      RelationRoundTrip(relations[i]);
    }
    ParseAllPointwise(items, RelationOf, loaded);
    assert EachParses(items, RelationOf) <==> HaveNames(relations);
  }

  // ----- a whole record -----

  lemma TermTextFree(term: OperandTerm, c: char)
    requires IsSeparator(c) && c != '+' && c != ':'
    ensures TermText(term) != "" && Free(TermText(term), c)
  {
    KindIsWire(term.kind);
    WireNameFree(KindName(term.kind), c);
    DecimalFree(term.minCount, c);
    DecimalFree(term.maxCount, c);
    JoinFree(TermFields(term), ':', c);
  }

  lemma RelationTextFree(r: Relation, c: char)
    requires IsSeparator(c) && c != '+' && c != ':'
    ensures Join(RelationFields(r), ':') != "" && Free(Join(RelationFields(r), ':'), c)
  {
    RelationFieldsFree(r, c);
    JoinFree(RelationFields(r), ':', c);
  }

  lemma ListParses(items: seq<string>)
    requires forall p | p in items :: p != "" && Free(p, ',') && Free(p, '\t')
    ensures ParseCommaList(Join(items, ',')) == Some(items) && Free(Join(items, ','), '\t')
  {
    JoinFree(items, ',', '\t');
    if items != [] {
      assert items[0] in items;
      JoinNotEmpty(items, ',');
      SplitJoin(items, ',');
    }
  }

  lemma ListsParse(form: Form)
    ensures ParseCommaList(Join(TermTexts(form.terms), ',')) == Some(TermTexts(form.terms))
    ensures ParseCommaList(Join(RelationTexts(form.relations), ',')) == Some(RelationTexts(form.relations))
    ensures Free(Join(TermTexts(form.terms), ','), '\t') && Free(Join(RelationTexts(form.relations), ','), '\t')
  {
    forall i | 0 <= i < |form.terms| ensures TermText(form.terms[i]) != "" && Free(TermText(form.terms[i]), ',')
      && Free(TermText(form.terms[i]), '\t')
    {
      TermTextFree(form.terms[i], ',');
      TermTextFree(form.terms[i], '\t');
    }
    ListParses(TermTexts(form.terms));
    forall i | 0 <= i < |form.relations|
      ensures var text := Join(RelationFields(form.relations[i]), ':');
        text != "" && Free(text, ',') && Free(text, '\t')
    {
      RelationTextFree(form.relations[i], ',');
      RelationTextFree(form.relations[i], '\t');
    }
    ListParses(RelationTexts(form.relations));
  }

  function LoadedFormOf(form: Form): LoadedForm {
    LoadedForm(
      form.syntax, PolicyName(form.policy), OrderingName(form.ordering),
      LoadedTermsOf(form.terms), LoadedRelationsOf(form.relations), TailName(form.tail))
  }

  /** A text that can stand in a field: no tab and nothing that ends a line. */
  ghost predicate IsField(text: string) {
    forall c | c in text :: c != '\t' && !IsLineEnd(c)
  }

  ghost predicate IsPrintable(form: Form) {
    IsField(form.token) && IsField(form.syntax)
  }

  lemma FormSplits(form: Form)
    requires IsPrintable(form)
    ensures Split(FormText(form), '\t') == FormFields(form)
  {
    PolicyIsWire(form.policy);
    WireNameFree(PolicyName(form.policy), '\t');
    OrderingIsWire(form.ordering);
    WireNameFree(OrderingName(form.ordering), '\t');
    TailIsWire(form.tail);
    WireNameFree(TailName(form.tail), '\t');
    ListsParse(form);
    SplitJoin(FormFields(form), '\t');
  }

  /** A printed record is loaded back as the form it was printed from, exactly when
      its operation is known to be closed, every operand range is non-empty and every
      mask bit has a name; otherwise the record is refused. */
  lemma FormRoundTrip(form: Form, closed: set<string>)
    requires IsPrintable(form)
    ensures FormOf(FormText(form), closed) ==
      if form.token in closed && HasRanges(form.terms) && HaveNames(form.relations)
      then FormRecord(form.token, LoadedFormOf(form)) else Refused
  {
    FormSplits(form);
    ListsParse(form);
    TermsRoundTrip(form.terms);
    RelationsRoundTrip(form.relations);
    TailIsWire(form.tail);
  }

  // ----- distinct forms print differently -----

  lemma KindNameInjective(a: OperandKind, b: OperandKind)
    requires KindName(a) == KindName(b)
    ensures a == b
  {
    assert |KindName(a)| == |KindName(b)| && KindName(a)[0] == KindName(b)[0];
  }

  lemma PolicyNameInjective(a: TargetPolicy, b: TargetPolicy)
    requires PolicyName(a) == PolicyName(b)
    ensures a == b
  {
    assert |PolicyName(a)| == |PolicyName(b)| && PolicyName(a)[1] == PolicyName(b)[1];
  }

  lemma OrderingNameInjective(a: Ordering, b: Ordering)
    requires OrderingName(a) == OrderingName(b)
    ensures a == b
  {
    assert |OrderingName(a)| == |OrderingName(b)| && OrderingName(a)[1] == OrderingName(b)[1];
  }

  lemma RelationNamesInjective(a: Relation, b: Relation)
    requires RequirementName(a.requirement) == RequirementName(b.requirement)
    requires OccurrenceName(a.occurrence) == OccurrenceName(b.occurrence)
    requires SyntaxName(a.publicSyntax) == SyntaxName(b.publicSyntax)
    requires ForwardingName(a.forwarding) == ForwardingName(b.forwarding)
    ensures a.requirement == b.requirement && a.occurrence == b.occurrence
    ensures a.publicSyntax == b.publicSyntax && a.forwarding == b.forwarding
  {
    assert RequirementName(a.requirement)[0] == RequirementName(b.requirement)[0];
    assert |OccurrenceName(a.occurrence)| == |OccurrenceName(b.occurrence)|;
    assert SyntaxName(a.publicSyntax)[0] == SyntaxName(b.publicSyntax)[0];
    assert |ForwardingName(a.forwarding)| == |ForwardingName(b.forwarding)|;
  }

  lemma LoadedTermInjective(a: OperandTerm, b: OperandTerm)
    requires LoadedTermOf(a) == LoadedTermOf(b)
    ensures a == b
  {
    KindNameInjective(a.kind, b.kind);
  }

  lemma LoadedRelationInjective(a: Relation, b: Relation)
    requires HasNames(a) && HasNames(b) && LoadedRelationOf(a) == LoadedRelationOf(b)
    ensures a == b
  {
    RelationNamesInjective(a, b);
    EffectsAreATable();
    MaskRecovered(a.effects, EFFECTS);
    MaskRecovered(b.effects, EFFECTS);
    TargetsAreATable();
    MaskRecovered(a.targets, FORWARDING_TARGETS);
    MaskRecovered(b.targets, FORWARDING_TARGETS);
  }

  lemma LoadedTermsInjective(a: seq<OperandTerm>, b: seq<OperandTerm>)
    requires LoadedTermsOf(a) == LoadedTermsOf(b)
    ensures a == b
  {
    forall i | 0 <= i < |a| ensures a[i] == b[i] {
      assert LoadedTermsOf(a)[i] == LoadedTermsOf(b)[i];
      LoadedTermInjective(a[i], b[i]);
    }
  }

  lemma LoadedRelationsInjective(a: seq<Relation>, b: seq<Relation>)
    requires HaveNames(a) && HaveNames(b) && LoadedRelationsOf(a) == LoadedRelationsOf(b)
    ensures a == b
  {
    forall i | 0 <= i < |a| ensures a[i] == b[i] {
      assert LoadedRelationsOf(a)[i] == LoadedRelationsOf(b)[i];
      LoadedRelationInjective(a[i], b[i]);
    }
  }

  lemma TailNameInjective(a: TailPolicy, b: TailPolicy)
    requires TailName(a) == TailName(b)
    ensures a == b
  {
    assert TailName(a)[0] == TailName(b)[0];
  }

  lemma LoadedFormInjective(a: Form, b: Form)
    requires HaveNames(a.relations) && HaveNames(b.relations)
    requires a.token == b.token && LoadedFormOf(a) == LoadedFormOf(b)
    ensures a == b
  {
    PolicyNameInjective(a.policy, b.policy);
    OrderingNameInjective(a.ordering, b.ordering);
    TailNameInjective(a.tail, b.tail);
    LoadedTermsInjective(a.terms, b.terms);
    LoadedRelationsInjective(a.relations, b.relations);
  }

  /** A form the loader accepts once its operation is known. */
  ghost predicate IsExportable(form: Form) {
    IsPrintable(form) && HasRanges(form.terms) && HaveNames(form.relations)
  }

  /** What the loader holds determines the form it was printed from: nothing is lost
      on the way. */
  lemma NothingIsLost(a: Form, b: Form, closed: set<string>)
    requires IsExportable(a) && IsExportable(b) && a.token in closed
    requires FormOf(FormText(a), closed) == FormOf(FormText(b), closed)
    ensures a == b
  {
    FormRoundTrip(a, closed);
    FormRoundTrip(b, closed);
    LoadedFormInjective(a, b);
  }
}
