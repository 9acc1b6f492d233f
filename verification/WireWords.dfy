/**
 What each word on the wire stands for: the tables of names, told from the side of what
 the loader makes of an accepted record.
 */
module WireWords {
  import opened Wrappers
  import opened TextLists
  import opened CliAuthority
  import opened CompletionLoader
  import opened CliRoundTrip
  import opened CliDocument

  // ----- the words -----

  lemma RequirementWord(x: Requirement)
    ensures RequirementName(x) == "optional" <==> x.OptionalRelation?
    ensures RequirementName(x) == "required" <==> x.RequiredRelation?
  {
    assert "optional"[0] != "required"[0];
  }

  lemma OccurrenceWord(x: CliAuthority.Occurrence)
    ensures OccurrenceName(x) == "once" <==> x.Once?
    ensures OccurrenceName(x) == "repeat-idempotent" <==> x.RepeatIdempotent?
    ensures OccurrenceName(x) == "repeat-same-value" <==> x.RepeatSameValue?
    ensures OccurrenceName(x) == "delegated" <==> x.DelegatedOccurrence?
  {
    assert |"once"| == 4 && |"repeat-idempotent"| == 17 && |"repeat-same-value"| == 17 && |"delegated"| == 9;
    assert "repeat-idempotent"[7] != "repeat-same-value"[7];
  }

  lemma SyntaxWord(x: PublicSyntax)
    ensures SyntaxName(x) == "hidden" <==> x.HiddenSyntax?
    ensures SyntaxName(x) == "optional" <==> x.OptionalSyntax?
    ensures SyntaxName(x) == "required" <==> x.RequiredSyntax?
  {
    assert |"hidden"| == 6 && |"optional"| == 8 && |"required"| == 8;
    assert "optional"[0] != "required"[0];
  }

  lemma ForwardingWord(x: ForwardingOccurrence)
    ensures ForwardingName(x) == "none" <==> x.NoForwarding?
    ensures ForwardingName(x) == "preserve-all" <==> x.PreserveAll?
    ensures ForwardingName(x) == "consolidate-single" <==> x.ConsolidateSingle?
  {
    assert |"none"| == 4 && |"preserve-all"| == 12 && |"consolidate-single"| == 18;
  }

  lemma TailWord(x: TailPolicy)
    ensures TailName(x) == "none" <==> x.NoTail?
    ensures TailName(x) == "repository-only" <==> x.RepositoryOnly?
  {
    assert |"none"| == 4 && |"repository-only"| == 15;
  }

  lemma PolicyWord(x: TargetPolicy)
    ensures PolicyName(x) == "none" <==> x.NoTarget?
    ensures PolicyName(x) == "exactly-one" <==> x.ExactlyOne?
    ensures PolicyName(x) == "one-or-more" <==> x.OneOrMore?
    ensures PolicyName(x) == "ordered-items" <==> x.OrderedItems?
    ensures PolicyName(x) == "fixed-sequence" <==> x.FixedSequence?
    ensures PolicyName(x) == "delegated" <==> x.DelegatedTarget?
  {
    assert |"none"| == 4 && |"exactly-one"| == 11 && |"one-or-more"| == 11 && |"ordered-items"| == 13
      && |"fixed-sequence"| == 14 && |"delegated"| == 9;
    assert "exactly-one"[0] != "one-or-more"[0];
  }

  lemma OrderingWord(x: CliAuthority.Ordering)
    ensures OrderingName(x) == "none" <==> x.NoOrdering?
    ensures OrderingName(x) == "preserve-input-order" <==> x.PreserveInputOrder?
    ensures OrderingName(x) == "primary-then-environment-assignments" <==> x.PrimaryThenEnvironmentAssignments?
    ensures OrderingName(x) == "package-introduces-following-assignment-scope" <==>
      x.PackageIntroducesFollowingAssignmentScope?
    ensures OrderingName(x) == "delegated" <==> x.DelegatedOrdering?
  {
    PrimaryWord();
    IntroducesWord();
    assert |"none"| == 4 && |"preserve-input-order"| == 20 && |"delegated"| == 9;
  }

  lemma PrimaryWord()
    ensures "primary-then-" + "environment-assignments" == "primary-then-environment-assignments"
    ensures |"primary-then-environment-assignments"| == 36
  {
  }

  lemma IntroducesWord()
    ensures "package-introduces-" + "following-assignment-scope" == "package-introduces-following-assignment-scope"
    ensures |"package-introduces-following-assignment-scope"| == 45
  {
  }

  lemma KindWord(x: OperandKind)
    ensures KindName(x) == "none" <==> x.NoOperand?
    ensures KindName(x) == "package" <==> x.Package?
    ensures KindName(x) == "directory" <==> x.Directory?
    ensures KindName(x) == "query" <==> x.Query?
    ensures KindName(x) == "patch-directory" <==> x.PatchDirectory?
    ensures KindName(x) == "patch-file" <==> x.PatchFile?
    ensures KindName(x) == "package-base" <==> x.PackageBase?
    ensures KindName(x) == "source-preference-item" <==> x.SourcePreferenceItem?
    ensures KindName(x) == "environment-assignment" <==> x.EnvironmentAssignment?
    ensures KindName(x) == "delegated-pacman-argument" <==> x.DelegatedPacmanArgument?
  {
    assert |"none"| == 4 && |"package"| == 7 && |"directory"| == 9 && |"query"| == 5 && |"patch-directory"| == 15
      && |"patch-file"| == 10 && |"package-base"| == 12 && |"source-preference-item"| == 22
      && |"environment-assignment"| == 22 && |"delegated-pacman-argument"| == 25;
    assert "source-preference-item"[0] != "environment-assignment"[0];
  }

  // ----- the loader knows no other words -----

  lemma KnownWords(word: string)
    ensures word in KNOWN_RELATION_REQUIREMENTS <==> exists x :: RequirementName(x) == word
    ensures word in KNOWN_OPTION_OCCURRENCES <==> exists x :: OccurrenceName(x) == word
    ensures word in KNOWN_PUBLIC_SYNTAX <==> exists x :: SyntaxName(x) == word
    ensures word in KNOWN_FORWARDING_OCCURRENCES <==> exists x :: ForwardingName(x) == word
    ensures word in KNOWN_DELEGATED_TAIL_POLICIES <==> exists x :: TailName(x) == word
  {
    assert RequirementName(OptionalRelation) == "optional" && RequirementName(RequiredRelation) == "required";
    assert OccurrenceName(Once) == "once" && OccurrenceName(RepeatIdempotent) == "repeat-idempotent";
    assert OccurrenceName(RepeatSameValue) == "repeat-same-value" && OccurrenceName(DelegatedOccurrence) == "delegated";
    assert SyntaxName(HiddenSyntax) == "hidden" && SyntaxName(OptionalSyntax) == "optional";
    assert SyntaxName(RequiredSyntax) == "required";
    assert ForwardingName(NoForwarding) == "none" && ForwardingName(PreserveAll) == "preserve-all";
    assert ForwardingName(ConsolidateSingle) == "consolidate-single";
    assert TailName(NoTail) == "none" && TailName(RepositoryOnly) == "repository-only";
  }

  lemma KnownKinds(word: string)
    ensures word in KNOWN_OPERAND_KINDS <==> exists x :: KindName(x) == word
  {
    assert KindName(NoOperand) == "none" && KindName(Package) == "package" && KindName(Directory) == "directory";
    assert KindName(Query) == "query" && KindName(PatchDirectory) == "patch-directory";
    assert KindName(PatchFile) == "patch-file" && KindName(PackageBase) == "package-base";
    assert KindName(SourcePreferenceItem) == "source-preference-item";
    assert KindName(EnvironmentAssignment) == "environment-assignment";
    assert KindName(DelegatedPacmanArgument) == "delegated-pacman-argument";
  }

  // ----- the bits of the masks -----

  function WordIf(isSet: bool, word: string): seq<string> {
    if isSet then [word] else []
  }

  /** The words of the effects, bit by bit; no higher bit has one. */
  ghost predicate AreEffectWords(mask: bv32, words: seq<string>) {
    && mask < 16
    && words == if mask == 0 then ["none"] else
         WordIf(mask & 1 != 0, "moguet-control") + WordIf(mask & 2 != 0, "upstream-argument")
         + WordIf(mask & 4 != 0, "final-install-semantic") + WordIf(mask & 8 != 0, "parser-boundary")
  }

  ghost predicate AreTargetWords(mask: bv32, words: seq<string>) {
    && mask < 8
    && words == if mask == 0 then ["none"] else
         WordIf(mask & 1 != 0, "pacman") + WordIf(mask & 2 != 0, "makepkg")
         + WordIf(mask & 4 != 0, "final-install-pacman")
  }

  lemma BitsApart(bit: bv32, other: bv32)
    requires IsSingleBit(bit) && IsSingleBit(other) && bit != other
    ensures bit & other == 0
  {
  }

  lemma BitsKept(left: bv32, bit: bv32, other: bv32)
    requires bit & other == 0
    ensures left & !bit & other == left & other
  {
  }

  lemma CommonBits(a: bv32, b: bv32, other: bv32)
    requires a & other == b & other
    ensures Overlaps(a, other) == Overlaps(b, other)
  {
  }

  lemma ClearedIs(left: bv32, bit: bv32)
    ensures Cleared(left, bit) == left & !bit
  {
  }

  lemma ClearedKeeps(left: bv32, bit: bv32, other: bv32)
    requires bit & other == 0
    ensures Overlaps(Cleared(left, bit), other) == Overlaps(left, other)
  {
    BitsKept(left, bit, other);
    ClearedIs(left, bit);
    CommonBits(left & !bit, left, other);
  }

  lemma {:induction false} StillSet(mask: bv32, names: MaskTable, n: nat, i: nat)
    requires IsMaskTable(names) && n <= i < |names|
    ensures Overlaps(Leftover(mask, names, n), names[i].0) <==> Overlaps(mask, names[i].0)
  {
    if n > 0 {
      StillSet(mask, names, n - 1, i);
      BitsApart(names[n - 1].0, names[i].0);
      ClearedKeeps(Leftover(mask, names, n - 1), names[n - 1].0, names[i].0);
    }
  }

  /** The words are those of the set bits, in the order of the table. */
  lemma NextWord(mask: bv32, names: MaskTable, n: nat)
    requires IsMaskTable(names) && n < |names|
    ensures SetNames(mask, names, n + 1) ==
      SetNames(mask, names, n) + WordIf(Overlaps(mask, names[n].0), names[n].1)
  {
    StillSet(mask, names, n, n);
  }

  ghost function WordsOf(mask: bv32, names: MaskTable, n: nat): seq<string>
    requires n <= |names|
  {
    if n == 0 then [] else WordsOf(mask, names, n - 1) + WordIf(Overlaps(mask, names[n - 1].0), names[n - 1].1)
  }

  lemma {:induction false} SetNamesAreWords(mask: bv32, names: MaskTable, n: nat)
    requires IsMaskTable(names) && n <= |names|
    ensures SetNames(mask, names, n) == WordsOf(mask, names, n)
  {
    if n > 0 {
      SetNamesAreWords(mask, names, n - 1);
      NextWord(mask, names, n - 1);
    }
  }

  lemma EffectWords(mask: bv32)
    ensures WordsOf(mask, EFFECTS, 4) ==
      WordIf(Overlaps(mask, 1), "moguet-control") + WordIf(Overlaps(mask, 2), "upstream-argument")
      + WordIf(Overlaps(mask, 4), "final-install-semantic") + WordIf(Overlaps(mask, 8), "parser-boundary")
  {
    var e := EFFECTS;
    assert WordsOf(mask, e, 1) == WordIf(Overlaps(mask, 1), "moguet-control");
    assert WordsOf(mask, e, 2) == WordsOf(mask, e, 1) + WordIf(Overlaps(mask, 2), "upstream-argument");
    assert WordsOf(mask, e, 3) == WordsOf(mask, e, 2) + WordIf(Overlaps(mask, 4), "final-install-semantic");
  }

  lemma TargetWords(mask: bv32)
    ensures WordsOf(mask, FORWARDING_TARGETS, 3) ==
      WordIf(Overlaps(mask, 1), "pacman") + WordIf(Overlaps(mask, 2), "makepkg")
      + WordIf(Overlaps(mask, 4), "final-install-pacman")
  {
    var t := FORWARDING_TARGETS;
    assert WordsOf(mask, t, 1) == WordIf(Overlaps(mask, 1), "pacman");
    assert WordsOf(mask, t, 2) == WordsOf(mask, t, 1) + WordIf(Overlaps(mask, 2), "makepkg");
  }

  lemma RawBits(mask: bv32)
    ensures Overlaps(mask, 1) <==> mask & 1 != 0
    ensures Overlaps(mask, 2) <==> mask & 2 != 0
    ensures Overlaps(mask, 4) <==> mask & 4 != 0
    ensures Overlaps(mask, 8) <==> mask & 8 != 0
  {
  }

  lemma AllEffectBits(mask: bv32)
    ensures IsNamed(mask, EFFECTS) <==> mask < 16
  {
    var e := EFFECTS;
    assert e[0].0 == 1 && e[1].0 == 2 && e[2].0 == 4 && e[3].0 == 8;
    assert AllBits(e, 1) == Or(AllBits(e, 0), 1);
    assert AllBits(e, 2) == Or(AllBits(e, 1), 2);
    assert AllBits(e, 3) == Or(AllBits(e, 2), 4);
    assert AllBits(e, 4) == 15;
    assert mask & !15 == 0 <==> mask < 16;
  }

  lemma AllTargetBits(mask: bv32)
    ensures IsNamed(mask, FORWARDING_TARGETS) <==> mask < 8
  {
    var t := FORWARDING_TARGETS;
    assert t[0].0 == 1 && t[1].0 == 2 && t[2].0 == 4;
    assert AllBits(t, 1) == Or(AllBits(t, 0), 1);
    assert AllBits(t, 2) == Or(AllBits(t, 1), 2);
    assert AllBits(t, 3) == 7;
    assert mask & !7 == 0 <==> mask < 8;
  }

  lemma EffectsMean(mask: bv32)
    ensures IsNamed(mask, EFFECTS) <==> AreEffectWords(mask, MaskNames(mask, EFFECTS))
  {
    AllEffectBits(mask);
    EffectsAreATable();
    SetNamesAreWords(mask, EFFECTS, 4);
    EffectWords(mask);
    RawBits(mask);
    LeftoverIsUnnamed(mask, EFFECTS, 4);
  }

  lemma TargetsMean(mask: bv32)
    ensures IsNamed(mask, FORWARDING_TARGETS) <==> AreTargetWords(mask, MaskNames(mask, FORWARDING_TARGETS))
  {
    AllTargetBits(mask);
    TargetsAreATable();
    SetNamesAreWords(mask, FORWARDING_TARGETS, 3);
    TargetWords(mask);
    RawBits(mask);
    LeftoverIsUnnamed(mask, FORWARDING_TARGETS, 3);
  }

  /** Any mask is printed as the words of its bits, and as unknown where it has others. */
  ghost predicate PrintsEffects(mask: bv32, words: seq<string>) {
    words == if mask == 0 then ["none"] else
      WordIf(mask & 1 != 0, "moguet-control") + WordIf(mask & 2 != 0, "upstream-argument")
      + WordIf(mask & 4 != 0, "final-install-semantic") + WordIf(mask & 8 != 0, "parser-boundary")
      + WordIf(mask >= 16, "unknown")
  }

  ghost predicate PrintsTargets(mask: bv32, words: seq<string>) {
    words == if mask == 0 then ["none"] else
      WordIf(mask & 1 != 0, "pacman") + WordIf(mask & 2 != 0, "makepkg")
      + WordIf(mask & 4 != 0, "final-install-pacman") + WordIf(mask >= 8, "unknown")
  }

  lemma EffectsArePrinted(mask: bv32)
    ensures PrintsEffects(mask, MaskNames(mask, EFFECTS))
  {
    AllEffectBits(mask);
    EffectsAreATable();
    SetNamesAreWords(mask, EFFECTS, 4);
    EffectWords(mask);
    RawBits(mask);
    LeftoverIsUnnamed(mask, EFFECTS, 4);
  }

  lemma TargetsArePrinted(mask: bv32)
    ensures PrintsTargets(mask, MaskNames(mask, FORWARDING_TARGETS))
  {
    AllTargetBits(mask);
    TargetsAreATable();
    SetNamesAreWords(mask, FORWARDING_TARGETS, 3);
    TargetWords(mask);
    RawBits(mask);
    LeftoverIsUnnamed(mask, FORWARDING_TARGETS, 3);
  }

  // ----- printed records -----

  /** Three fields between colons. */
  lemma TermIsPrinted(term: OperandTerm) returns (kind: string)
    ensures IsKindWord(kind, term.kind)
    ensures TermText(term) == kind + ":" + Decimal(term.minCount) + ":"
      + (if term.maxCount == 0xFFFF_FFFF_FFFF_FFFF then "*" else Decimal(term.maxCount))
  {
    kind := KindName(term.kind);
    KindWord(term.kind);
    var fields := TermFields(term);
    assert fields[1..] == [fields[1], fields[2]] && fields[1..][1..] == [fields[2]];
    assert Join(fields[1..], ':') == fields[1] + ":" + fields[2];
    assert fields[0] + ":" + (fields[1] + ":" + fields[2]) == fields[0] + ":" + fields[1] + ":" + fields[2];
  }

  /** Seven fields, of which the two masks are lists between plus signs. */
  lemma RelationIsPrinted(r: Relation) returns (printed: LoadedRelation)
    ensures printed.identity == r.option && IsRelationOf(printed, r)
    ensures PrintsEffects(r.effects, printed.effects) && PrintsTargets(r.targets, printed.targets)
    ensures RelationFields(r) == [
      Decimal(r.option), printed.requirement, printed.occurrence, printed.publicSyntax,
      Join(printed.effects, '+'), Join(printed.targets, '+'), printed.forwarding]
  {
    printed := LoadedRelation(
      r.option, RequirementName(r.requirement), OccurrenceName(r.occurrence), SyntaxName(r.publicSyntax),
      MaskNames(r.effects, EFFECTS), MaskNames(r.targets, FORWARDING_TARGETS), ForwardingName(r.forwarding));
    EffectsArePrinted(r.effects);
    TargetsArePrinted(r.targets);
    RequirementWord(r.requirement);
    OccurrenceWord(r.occurrence);
    SyntaxWord(r.publicSyntax);
    ForwardingWord(r.forwarding);
  }

  /** Eight fields between tabs, of which two are lists between commas. */
  lemma FormIsPrinted(form: Form) returns (words: LoadedForm, terms: seq<string>, relations: seq<string>)
    ensures IsFormOf(words, form) && |terms| == |form.terms| && |relations| == |form.relations|
    ensures forall i | 0 <= i < |terms| :: terms[i] == TermText(form.terms[i])
    ensures forall i | 0 <= i < |relations| :: relations[i] == Join(RelationFields(form.relations[i]), ':')
    ensures FormText(form) == Join(
      ["FORM", form.token, form.syntax, words.policy, words.ordering, Join(terms, ','), Join(relations, ','),
       words.tail], '\t')
  {
    terms, relations := TermTexts(form.terms), RelationTexts(form.relations);
    words := LoadedForm(
      form.syntax, PolicyName(form.policy), OrderingName(form.ordering), [], [], TailName(form.tail));
    PolicyWord(form.policy);
    OrderingWord(form.ordering);
    TailWord(form.tail);
  }

  /** A document is printed operation by operation: its token, then its forms, every line
      with a newline at its end. */
  lemma OperationIsPrinted(operations: seq<Operation>, operation: Operation)
    ensures Printed(GrammarLines([])) == ""
    ensures Printed(GrammarLines(operations + [operation]))
      == Printed(GrammarLines(operations)) + ("OPERATION\t" + operation.token + "\tclosed\n")
         + Printed(FormTexts(operation.forms))
  {
    var all := operations + [operation];
    var n := |operations|;
    assert all[..n] == operations && all[..n + 1] == all;
    GrammarNext("", all, n);
    OperationLineIs(operation.token);
    assert "" + Printed(GrammarLines(all)) == Printed(GrammarLines(all));
    assert "" + Printed(GrammarLines(operations)) == Printed(GrammarLines(operations));
    assert Printed(GrammarLines(operations)) + OperationText(operation.token) + "\n"
      == Printed(GrammarLines(operations)) + ("OPERATION\t" + operation.token + "\tclosed\n");
  }

  lemma OperationLineIs(token: string)
    ensures OperationText(token) + "\n" == "OPERATION\t" + token + "\tclosed\n"
  {
    var fields := OperationFields(token);
    assert fields[1..] == [token, "closed"] && fields[1..][1..] == ["closed"];
    assert Join(fields[1..], '\t') == token + "\t" + "closed";
    assert "OPERATION" + "\t" == "OPERATION\t" && "\t" + "closed" + "\n" == "\tclosed\n";
  }

  lemma LineIsPrinted(lines: seq<string>, line: string)
    ensures Printed([]) == "" && Printed(lines + [line]) == Printed(lines) + line + "\n"
  {
    assert (lines + [line])[..|lines|] == lines;
  }

  // ----- records -----

  /** What the loader makes of a printed term. */
  lemma TermMeans(term: OperandTerm)
    ensures var loaded := TermOf(TermText(term));
      && (loaded.Some? <==> term.maxCount == 0xFFFF_FFFF_FFFF_FFFF || term.minCount <= term.maxCount)
      && (loaded.Some? ==>
            && loaded.value.minCount == term.minCount
            && (term.maxCount == 0xFFFF_FFFF_FFFF_FFFF ==> loaded.value.maxCount.None?)
            && (term.maxCount != 0xFFFF_FFFF_FFFF_FFFF ==> loaded.value.maxCount == Some(term.maxCount))
            && IsKindWord(loaded.value.kind, term.kind))
  {
    TermRoundTrip(term);
    KindWord(term.kind);
  }

  ghost predicate IsKindWord(word: string, x: OperandKind) {
    && (word == "none" <==> x.NoOperand?) && (word == "package" <==> x.Package?)
    && (word == "directory" <==> x.Directory?) && (word == "query" <==> x.Query?)
    && (word == "patch-directory" <==> x.PatchDirectory?) && (word == "patch-file" <==> x.PatchFile?)
    && (word == "package-base" <==> x.PackageBase?)
    && (word == "source-preference-item" <==> x.SourcePreferenceItem?)
    && (word == "environment-assignment" <==> x.EnvironmentAssignment?)
    && (word == "delegated-pacman-argument" <==> x.DelegatedPacmanArgument?)
  }

  /** What the loader makes of a printed relation: each word and the bits it stands for. */
  lemma RelationMeans(r: Relation)
    ensures var loaded := RelationOf(Join(RelationFields(r), ':'));
      && (loaded.Some? <==> r.effects < 16 && r.targets < 8)
      && (loaded.Some? ==>
            && loaded.value.identity == r.option
            && IsRelationOf(loaded.value, r)
            && AreEffectWords(r.effects, loaded.value.effects) && AreTargetWords(r.targets, loaded.value.targets))
  {
    RelationRoundTrip(r);
    EffectsMean(r.effects);
    TargetsMean(r.targets);
    AllEffectBits(r.effects);
    AllTargetBits(r.targets);
    RequirementWord(r.requirement);
    OccurrenceWord(r.occurrence);
    SyntaxWord(r.publicSyntax);
    ForwardingWord(r.forwarding);
  }

  ghost predicate IsRelationOf(loaded: LoadedRelation, r: Relation) {
    && (loaded.requirement == "optional" <==> r.requirement.OptionalRelation?)
    && (loaded.requirement == "required" <==> r.requirement.RequiredRelation?)
    && (loaded.occurrence == "once" <==> r.occurrence.Once?)
    && (loaded.occurrence == "repeat-idempotent" <==> r.occurrence.RepeatIdempotent?)
    && (loaded.occurrence == "repeat-same-value" <==> r.occurrence.RepeatSameValue?)
    && (loaded.occurrence == "delegated" <==> r.occurrence.DelegatedOccurrence?)
    && (loaded.publicSyntax == "hidden" <==> r.publicSyntax.HiddenSyntax?)
    && (loaded.publicSyntax == "optional" <==> r.publicSyntax.OptionalSyntax?)
    && (loaded.publicSyntax == "required" <==> r.publicSyntax.RequiredSyntax?)
    && (loaded.forwarding == "none" <==> r.forwarding.NoForwarding?)
    && (loaded.forwarding == "preserve-all" <==> r.forwarding.PreserveAll?)
    && (loaded.forwarding == "consolidate-single" <==> r.forwarding.ConsolidateSingle?)
  }

  ghost predicate IsFormOf(loaded: LoadedForm, form: Form) {
    && loaded.syntax == form.syntax
    && (loaded.policy == "none" <==> form.policy.NoTarget?)
    && (loaded.policy == "exactly-one" <==> form.policy.ExactlyOne?)
    && (loaded.policy == "one-or-more" <==> form.policy.OneOrMore?)
    && (loaded.policy == "ordered-items" <==> form.policy.OrderedItems?)
    && (loaded.policy == "fixed-sequence" <==> form.policy.FixedSequence?)
    && (loaded.policy == "delegated" <==> form.policy.DelegatedTarget?)
    && (loaded.ordering == "none" <==> form.ordering.NoOrdering?)
    && (loaded.ordering == "preserve-input-order" <==> form.ordering.PreserveInputOrder?)
    && (loaded.ordering == "primary-then-environment-assignments" <==>
          form.ordering.PrimaryThenEnvironmentAssignments?)
    && (loaded.ordering == "package-introduces-following-assignment-scope" <==>
          form.ordering.PackageIntroducesFollowingAssignmentScope?)
    && (loaded.ordering == "delegated" <==> form.ordering.DelegatedOrdering?)
    && (loaded.tail == "none" <==> form.tail.NoTail?)
    && (loaded.tail == "repository-only" <==> form.tail.RepositoryOnly?)
  }

  /** Item by item, each loaded from its own text. */
  ghost predicate HasItemsOf(loaded: LoadedForm, form: Form) {
    && |loaded.terms| == |form.terms| && |loaded.relations| == |form.relations|
    && (forall i | 0 <= i < |form.terms| :: TermOf(TermText(form.terms[i])) == Some(loaded.terms[i]))
    && (forall i | 0 <= i < |form.relations| ::
          RelationOf(Join(RelationFields(form.relations[i]), ':')) == Some(loaded.relations[i]))
  }

  lemma ItemsMean(form: Form)
    requires HasRanges(form.terms) && HaveNames(form.relations)
    ensures HasItemsOf(LoadedFormOf(form), form)
  {
    forall i | 0 <= i < |form.terms|
      ensures TermOf(TermText(form.terms[i])) == Some(LoadedTermOf(form.terms[i]))
    {
      TermRoundTrip(form.terms[i]);
    }
    forall i | 0 <= i < |form.relations|
      ensures RelationOf(Join(RelationFields(form.relations[i]), ':')) == Some(LoadedRelationOf(form.relations[i]))
    {
      RelationRoundTrip(form.relations[i]);
    }
  }

  lemma WordsMean(form: Form)
    ensures IsFormOf(LoadedFormOf(form), form)
  {
    PolicyWord(form.policy);
    OrderingWord(form.ordering);
    TailWord(form.tail);
  }

  /** What the loader makes of the line of a printed form. */
  lemma FormMeans(form: Form, closed: set<string>)
    requires IsPrintable(form) && FormOf(FormText(form), closed).FormRecord?
    ensures var loaded := FormOf(FormText(form), closed);
      && loaded.token == form.token && form.token in closed
      && IsFormOf(loaded.form, form) && HasItemsOf(loaded.form, form)
  {
    FormRoundTrip(form, closed);
    WordsMean(form);
    ItemsMean(form);
  }

  // ----- documents -----

  /** No tab and none of the ten characters that end a line. */
  ghost predicate FitsInField(text: string) {
    forall i | 0 <= i < |text| ::
      var code := text[i] as int;
      && !(9 <= code <= 13) && !(28 <= code <= 30) && code != 133 && code != 8232 && code != 8233
  }

  /** Its forms carry its token, and no text breaks a line or a field. */
  ghost predicate CanBePrinted(operation: Operation) {
    && |operation.token| > 0 && FitsInField(operation.token)
    && forall form | form in operation.forms :: form.token == operation.token && FitsInField(form.syntax)
  }

  /** No term asks for more than it allows, and no mask has a bit without a word. */
  ghost predicate CanBeLoaded(form: Form) {
    && (forall term | term in form.terms ::
          term.maxCount == 0xFFFF_FFFF_FFFF_FFFF || term.minCount <= term.maxCount)
    && forall r | r in form.relations :: r.effects < 16 && r.targets < 8
  }

  lemma FieldMeans(text: string)
    ensures IsField(text) <==> FitsInField(text)
  {
    if IsField(text) {
      forall i | 0 <= i < |text| ensures text[i] != '\t' && !IsLineEnd(text[i]) {
        assert text[i] in text;
      }
    }
  }

  lemma PrintedMeans(operation: Operation)
    ensures IsOperation(operation) <==> CanBePrinted(operation)
  {
    FieldMeans(operation.token);
    forall form | form in operation.forms ensures IsField(form.syntax) <==> FitsInField(form.syntax) {
      FieldMeans(form.syntax);
    }
    if CanBePrinted(operation) {
      forall i | 0 <= i < |operation.forms|
        ensures operation.forms[i].token == operation.token && IsPrintable(operation.forms[i])
      {
        assert operation.forms[i] in operation.forms;
      }
    }
  }

  lemma LoadableMeans(form: Form)
    ensures IsLoadable(form) <==> CanBeLoaded(form)
  {
    forall mask ensures IsNamed(mask, EFFECTS) <==> mask < 16 {
      AllEffectBits(mask);
    }
    forall mask ensures IsNamed(mask, FORWARDING_TARGETS) <==> mask < 8 {
      AllTargetBits(mask);
    }
    if CanBeLoaded(form) {
      forall i | 0 <= i < |form.terms| ensures HasRange(form.terms[i]) {
        assert form.terms[i] in form.terms;
      }
      forall i | 0 <= i < |form.relations| ensures HasNames(form.relations[i]) {
        assert form.relations[i] in form.relations;
      }
    }
  }

  ghost predicate CanAllBeLoaded(operations: seq<Operation>) {
    && (forall i, j | 0 <= i < j < |operations| :: operations[i].token != operations[j].token)
    && forall operation | operation in operations :: forall form | form in operation.forms :: CanBeLoaded(form)
  }

  lemma AcceptedMeans(operations: seq<Operation>)
    ensures IsAccepted(operations) <==> CanAllBeLoaded(operations)
  {
    forall form ensures IsLoadable(form) <==> CanBeLoaded(form) {
      LoadableMeans(form);
    }
    forall i | 0 <= i < |operations|
      ensures AreLoadable(operations[i].forms) <==> forall form | form in operations[i].forms :: CanBeLoaded(form)
    {
      FormsMean(operations[i].forms);
    }
    assert AreDistinct(Tokens(operations)) <==>
      forall i, j | 0 <= i < j < |operations| :: operations[i].token != operations[j].token by {
      forall i | 0 <= i < |operations| ensures Tokens(operations)[i] == operations[i].token {
      }
    }
    if CanAllBeLoaded(operations) {
      forall i | 0 <= i < |operations| ensures AreLoadable(operations[i].forms) {
        assert operations[i] in operations;
      }
    }
  }

  lemma FormsMean(forms: seq<Form>)
    ensures AreLoadable(forms) <==> forall form | form in forms :: CanBeLoaded(form)
  {
    forall form ensures IsLoadable(form) <==> CanBeLoaded(form) {
      LoadableMeans(form);
    }
    if forall form | form in forms :: CanBeLoaded(form) {
      forall i | 0 <= i < |forms| ensures IsLoadable(forms[i]) {
        assert forms[i] in forms;
      }
    }
  }

  ghost predicate IsLoadedFrom(loaded: LoadedForm, form: Form) {
    IsFormOf(loaded, form) && HasItemsOf(loaded, form)
  }

  ghost predicate AreLoadedFrom(loaded: seq<LoadedForm>, forms: seq<Form>) {
    |loaded| == |forms| && forall k | 0 <= k < |forms| :: IsLoadedFrom(loaded[k], forms[k])
  }

  /** The grammar has the operation, closed and with its forms in order. */
  ghost predicate Holds(g: Grammar, operation: Operation) {
    && operation.token in g.operations && !g.operations[operation.token].isOpen
    && AreLoadedFrom(g.operations[operation.token].forms, operation.forms)
  }

  lemma FormIsLoaded(form: Form)
    requires IsLoadable(form)
    ensures IsLoadedFrom(LoadedFormOf(form), form)
  {
    WordsMean(form);
    ItemsMean(form);
  }

  lemma FormsAreLoaded(forms: seq<Form>)
    requires AreLoadable(forms)
    ensures AreLoadedFrom(LoadedFormsOf(forms), forms)
  {
    forall k | 0 <= k < |forms| ensures IsLoadedFrom(LoadedFormsOf(forms)[k], forms[k]) {
      FormIsLoaded(forms[k]);
    }
  }

  lemma OperationHeld(operations: seq<Operation>, i: nat)
    requires IsAccepted(operations) && i < |operations|
    ensures Holds(GrammarOf(operations), operations[i])
  {
    GrammarHolds(operations);
    assert Tokens(operations)[i] == operations[i].token;
    FormsAreLoaded(operations[i].forms);
    HeldIs(GrammarOf(operations), operations[i], LoadedFormsOf(operations[i].forms));
  }

  lemma HeldIs(g: Grammar, operation: Operation, loaded: seq<LoadedForm>)
    requires operation.token in g.operations && OperationIn(g, operation.token) == LoadedOperation(false, loaded)
    requires AreLoadedFrom(loaded, operation.forms)
    ensures Holds(g, operation)
  {
  }

  /** A printed document is loaded exactly when no operation stands in it twice and every
      form can be loaded, and then holds each operation and no other. */
  lemma DocumentMeans(operations: seq<Operation>)
    requires forall operation | operation in operations :: CanBePrinted(operation)
    ensures var loaded := GrammarIn(Printed(GrammarLines(operations)));
      && (loaded.Some? <==> CanAllBeLoaded(operations))
      && (loaded.Some? ==>
            && (forall operation | operation in operations :: Holds(loaded.value, operation))
            && forall token | token in loaded.value.operations ::
                 exists operation | operation in operations :: operation.token == token)
  {
    forall i | 0 <= i < |operations| ensures IsOperation(operations[i]) {
      assert operations[i] in operations;
      PrintedMeans(operations[i]);
    }
    DocumentRoundTrip(operations);
    AcceptedMeans(operations);
    if IsAccepted(operations) {
      GrammarHolds(operations);
      forall operation | operation in operations ensures Holds(GrammarOf(operations), operation) {
        var i :| 0 <= i < |operations| && operations[i] == operation;
        OperationHeld(operations, i);
      }
      forall token | token in GrammarOf(operations).operations
        ensures exists operation | operation in operations :: operation.token == token
      {
        var i :| 0 <= i < |operations| && Tokens(operations)[i] == token;
        assert operations[i] in operations;
      }
    }
  }
}
