/**
 The exporter of the CLI grammar: one tab-separated record per grammar form, with
 comma, colon and plus separated lists inside.
 */
module CliAuthority {
  import opened Wrappers
  import opened TextLists

  datatype OperandKind =
    | NoOperand | Package | Directory | Query | SourcePreferenceItem | EnvironmentAssignment
    | DelegatedPacmanArgument | PatchDirectory | PatchFile | PackageBase

  datatype TargetPolicy = NoTarget | ExactlyOne | OneOrMore | OrderedItems | FixedSequence | DelegatedTarget

  datatype Ordering =
    | NoOrdering | PreserveInputOrder | PrimaryThenEnvironmentAssignments
    | PackageIntroducesFollowingAssignmentScope | DelegatedOrdering

  datatype Requirement = OptionalRelation | RequiredRelation
  datatype Occurrence = Once | RepeatIdempotent | RepeatSameValue | DelegatedOccurrence
  datatype PublicSyntax = HiddenSyntax | OptionalSyntax | RequiredSyntax
  datatype ForwardingOccurrence = NoForwarding | PreserveAll | ConsolidateSingle
  datatype TailPolicy = NoTail | RepositoryOnly

  const UNBOUNDED: nat := 0xFFFF_FFFF_FFFF_FFFF

  datatype OperandTerm = OperandTerm(kind: OperandKind, minCount: nat, maxCount: nat)

  datatype Relation = Relation(
    option: nat, requirement: Requirement, occurrence: Occurrence, publicSyntax: PublicSyntax,
    effects: bv32, targets: bv32, forwarding: ForwardingOccurrence)

  datatype Form = Form(
    token: string, syntax: string, policy: TargetPolicy, ordering: Ordering,
    terms: seq<OperandTerm>, relations: seq<Relation>, tail: TailPolicy)

  // ----- wire names -----

  /** A wire name is lower-case letters and dashes: it holds no separator. */
  predicate IsWireName(name: string) {
    name != "" && forall i | 0 <= i < |name| :: name[i] == '-' || 'a' <= name[i] <= 'z'
  }

  function KindName(kind: OperandKind): string {
    match kind
    case NoOperand => "none"
    case Package => "package"
    case Directory => "directory"
    case PatchDirectory => "patch-directory"
    case PatchFile => "patch-file"
    case PackageBase => "package-base"
    case Query => "query"
    case SourcePreferenceItem => "source-preference-item"
    case EnvironmentAssignment => "environment-assignment"
    case DelegatedPacmanArgument => "delegated-pacman-argument"
  }

  function PolicyName(policy: TargetPolicy): string {
    match policy
    case NoTarget => "none"
    case ExactlyOne => "exactly-one"
    case OneOrMore => "one-or-more"
    case OrderedItems => "ordered-items"
    case FixedSequence => "fixed-sequence"
    case DelegatedTarget => "delegated"
  }

  function OrderingName(ordering: Ordering): string {
    match ordering
    case NoOrdering => "none"
    case PreserveInputOrder => "preserve-input-order"
    case PrimaryThenEnvironmentAssignments => "primary-then-" + "environment-assignments"
    case PackageIntroducesFollowingAssignmentScope => "package-introduces-" + "following-assignment-scope"
    case DelegatedOrdering => "delegated"
  }

  function RequirementName(requirement: Requirement): string {
    match requirement
    case OptionalRelation => "optional"
    case RequiredRelation => "required"
  }

  function OccurrenceName(occurrence: Occurrence): string {
    match occurrence
    case Once => "once"
    case RepeatIdempotent => "repeat-idempotent"
    case RepeatSameValue => "repeat-same-value"
    case DelegatedOccurrence => "delegated"
  }

  function SyntaxName(syntax: PublicSyntax): string {
    match syntax
    case HiddenSyntax => "hidden"
    case OptionalSyntax => "optional"
    case RequiredSyntax => "required"
  }

  function ForwardingName(forwarding: ForwardingOccurrence): string {
    match forwarding
    case NoForwarding => "none"
    case PreserveAll => "preserve-all"
    case ConsolidateSingle => "consolidate-single"
  }

  function TailName(tail: TailPolicy): string {
    match tail
    case NoTail => "none"
    case RepositoryOnly => "repository-only"
  }

  // ----- bit masks as names -----

  type MaskTable = seq<(bv32, string)>

  const EFFECTS: MaskTable := [
    (1, "moguet-control"), (2, "upstream-argument"), (4, "final-install-semantic"), (8, "parser-boundary")]

  const FORWARDING_TARGETS: MaskTable := [(1, "pacman"), (2, "makepkg"), (4, "final-install-pacman")]

  predicate IsSingleBit(bit: bv32) {
    bit != 0 && bit & (bit - 1) == 0
  }

  /** Single, pairwise different bits under pairwise different names, none of them
      one of the two words with a meaning of their own. */
  ghost predicate IsMaskTable(names: MaskTable) {
    && (forall i | 0 <= i < |names| :: IsSingleBit(names[i].0))
    && (forall i | 0 <= i < |names| :: IsWireName(names[i].1) && names[i].1 != "none" && names[i].1 != "unknown")
    && (forall i, j | 0 <= i < j < |names| :: names[i].0 != names[j].0 && names[i].1 != names[j].1)
  }

  predicate Overlaps(mask: bv32, bit: bv32) {
    mask & bit != 0
  }

  function Cleared(mask: bv32, bit: bv32): bv32 {
    mask & !bit
  }

  /** The bits of `mask` left over once the first `n` names have taken theirs. */
  function Leftover(mask: bv32, names: MaskTable, n: nat): bv32
    requires n <= |names|
  {
    if n == 0 then mask else Cleared(Leftover(mask, names, n - 1), names[n - 1].0)
  }

  function SetNames(mask: bv32, names: MaskTable, n: nat): seq<string>
    requires n <= |names|
  {
    if n == 0 then []
    else
      SetNames(mask, names, n - 1)
      + (if Overlaps(Leftover(mask, names, n - 1), names[n - 1].0) then [names[n - 1].1] else [])
  }

  function MaskNames(mask: bv32, names: MaskTable): seq<string> {
    if mask == 0 then ["none"]
    else
      SetNames(mask, names, |names|) + (if Leftover(mask, names, |names|) == 0 then [] else ["unknown"])
  }

  // ----- the text of a record -----

  function MaskText(mask: bv32, names: MaskTable): string {
    Join(MaskNames(mask, names), '+')
  }

  function MaxText(maxCount: nat): string {
    if maxCount == UNBOUNDED then "*" else Decimal(maxCount)
  }

  function TermFields(term: OperandTerm): seq<string> {
    [KindName(term.kind), Decimal(term.minCount), MaxText(term.maxCount)]
  }

  function TermText(term: OperandTerm): string {
    Join(TermFields(term), ':')
  }

  function TermTexts(terms: seq<OperandTerm>): (r: seq<string>)
    ensures |r| == |terms|
  {
    seq(|terms|, i requires 0 <= i < |terms| => TermText(terms[i]))
  }

  function RelationFields(r: Relation): seq<string> {
    [Decimal(r.option), RequirementName(r.requirement), OccurrenceName(r.occurrence), SyntaxName(r.publicSyntax),
     MaskText(r.effects, EFFECTS), MaskText(r.targets, FORWARDING_TARGETS), ForwardingName(r.forwarding)]
  }

  function RelationTexts(relations: seq<Relation>): (r: seq<string>)
    ensures |r| == |relations|
  {
    seq(|relations|, i requires 0 <= i < |relations| => Join(RelationFields(relations[i]), ':'))
  }

  function FormFields(form: Form): seq<string> {
    ["FORM", form.token, form.syntax, PolicyName(form.policy), OrderingName(form.ordering),
     Join(TermTexts(form.terms), ','), Join(RelationTexts(form.relations), ','), TailName(form.tail)]
  }

  /** The record, without its line end. */
  function FormText(form: Form): string {
    Join(FormFields(form), '\t')
  }

  /** An operation of the closed grammar with its forms. */
  datatype Operation = Operation(token: string, forms: seq<Form>)

  function OperationText(token: string): string {
    Join(OperationFields(token), '\t')
  }

  function OperationFields(token: string): seq<string> {
    ["OPERATION", token, "closed"]
  }

  function FormTexts(forms: seq<Form>): (r: seq<string>)
    ensures |r| == |forms|
  {
    seq(|forms|, i requires 0 <= i < |forms| => FormText(forms[i]))
  }

  /** The lines of the closed operations, each followed by its forms. */
  function GrammarLines(operations: seq<Operation>): seq<string> {
    if operations == [] then []
    else
      var last := operations[|operations| - 1];
      GrammarLines(operations[..|operations| - 1]) + OperationLines(last)
  }

  /** Lines as they are printed, each with its line end. */
  function Printed(lines: seq<string>): string {
    if lines == [] then "" else Printed(lines[..|lines| - 1]) + lines[|lines| - 1] + "\n"
  }

  lemma PrintedLast(lines: seq<string>, last: string)
    ensures Printed(lines + [last]) == Printed(lines) + (last + "\n")
  {
    assert (lines + [last])[..|lines|] == lines;
    assert Printed(lines) + last + "\n" == Printed(lines) + (last + "\n");
  }

  lemma {:induction false} PrintedTogether(a: seq<string>, b: seq<string>)
    ensures Printed(a + b) == Printed(a) + Printed(b)
  {
    if b == [] {
      assert a + b == a;
    } else {
      var most, last := b[..|b| - 1], b[|b| - 1];
      PrintedTogether(a, most);
      PrintedLast(a + most, last);
      PrintedLast(most, last);
      assert a + b == (a + most) + [last] && b == most + [last];
      assert (Printed(a) + Printed(most)) + (last + "\n") == Printed(a) + (Printed(most) + (last + "\n"));
    }
  }

  // ----- printing -----

  lemma JoinAfter(base: string, parts: seq<string>, c: char, last: string)
    requires parts != []
    ensures base + Join(parts + [last], c) == base + Join(parts, c) + [c] + last
  {
    JoinLast(parts, last, c);
  }

  /** One more field of a record: the fields so far, a separator and the field. */
  lemma JoinField(base: string, fields: seq<string>, k: nat, c: char)
    requires 0 < k < |fields|
    ensures base + Join(fields[..k + 1], c) == base + Join(fields[..k], c) + [c] + fields[k]
  {
    assert fields[..k + 1] == fields[..k] + [fields[k]];
    JoinAfter(base, fields[..k], c, fields[k]);
  }

  lemma NextSetName(mask: bv32, names: MaskTable, i: nat)
    requires i < |names| && Overlaps(Leftover(mask, names, i), names[i].0)
    ensures SetNames(mask, names, i + 1) == SetNames(mask, names, i) + [names[i].1]
  {
  }

  class Exporter {
    var out: string

    method Print(text: string)
      modifies this
      ensures out == old(out) + text
    {
      out := out + text;
    }

    /** The first `k` fields of a record are printed after `base`. */
    ghost predicate HasFields(base: string, fields: seq<string>, k: nat, c: char)
      requires k <= |fields|
      reads this
    {
      out == base + Join(fields[..k], c)
    }

    method PrintFirstField(text: string, ghost fields: seq<string>, ghost c: char)
      requires fields != [] && text == fields[0]
      modifies this
      ensures HasFields(old(out), fields, 1, c)
    {
      assert fields[..1] == [text];
      Print(text);
    }

    method PrintField(c: char, text: string, ghost base: string, ghost fields: seq<string>, ghost k: nat)
      requires 0 < k < |fields| && text == fields[k] && HasFields(base, fields, k, c)
      modifies this
      ensures HasFields(base, fields, k + 1, c)
    {
      JoinField(base, fields, k, c);
      Print([c]);
      Print(text);
    }

    ghost method AllFields(base: string, fields: seq<string>, c: char)
      requires HasFields(base, fields, |fields|, c)
      ensures out == base + Join(fields, c)
    {
      assert fields[..|fields|] == fields;
    }

    method PrintMaskNames(mask: bv32, names: MaskTable)
      modifies this
      ensures out == old(out) + MaskText(mask, names)
    {
      if mask == 0 {
        Print("none");
        return;
      }
      ghost var base, all := out, MaskNames(mask, names);
      var remaining, first := PrintSetNames(mask, names);
      ghost var printed := SetNames(mask, names, |names|);
      if remaining == 0 {
        assert all == printed;
        return;
      }
      assert all == printed + ["unknown"];
      if !first {
        JoinLast(printed, "unknown", '+');
        Print("+");
      }
      Print("unknown");
    }

    method PrintSetNames(mask: bv32, names: MaskTable) returns (remaining: bv32, first: bool)
      modifies this
      ensures out == old(out) + Join(SetNames(mask, names, |names|), '+')
      ensures remaining == Leftover(mask, names, |names|)
      ensures first == (SetNames(mask, names, |names|) == [])
    {
      remaining, first := mask, true;
      ghost var base := out;
      for i := 0 to |names|
        invariant remaining == Leftover(mask, names, i)
        invariant first == (SetNames(mask, names, i) == [])
        invariant out == base + Join(SetNames(mask, names, i), '+')
      {
        ghost var printed := SetNames(mask, names, i);
        if !Overlaps(remaining, names[i].0) {
          UntakenBit(remaining, names[i].0);
          assert SetNames(mask, names, i + 1) == printed;
          continue;
        }
        NextSetName(mask, names, i);
        PrintName(names[i].1, first, base, printed);
        first := false;
        remaining := Cleared(remaining, names[i].0);
      }
    }

    method PrintName(name: string, first: bool, ghost base: string, ghost printed: seq<string>)
      requires first == (printed == []) && out == base + Join(printed, '+')
      modifies this
      ensures out == base + Join(printed + [name], '+')
    {
      if !first {
        JoinAfter(base, printed, '+', name);
        Print("+");
      } else {
        assert printed + [name] == [name];
      }
      Print(name);
    }

    method PrintOperandTerms(terms: seq<OperandTerm>)
      modifies this
      ensures out == old(out) + Join(TermTexts(terms), ',')
    {
      ghost var base, texts := out, TermTexts(terms);
      for i := 0 to |terms|
        invariant out == base + Join(texts[..i], ',')
      {
        if i != 0 {
          JoinField(base, texts, i, ',');
          Print(",");
        } else {
          assert texts[..1] == [texts[0]];
        }
        PrintOperandTerm(terms[i]);
      }
      assert texts[..|terms|] == texts;
    }

    method PrintOperandTerm(term: OperandTerm)
      modifies this
      ensures out == old(out) + TermText(term)
    {
      ghost var base, fields := out, TermFields(term);
      PrintFirstField(KindName(term.kind), fields, ':');
      PrintField(':', Decimal(term.minCount), base, fields, 1);
      if term.maxCount == UNBOUNDED {
        PrintField(':', "*", base, fields, 2);
      } else {
        PrintField(':', Decimal(term.maxCount), base, fields, 2);
      }
      AllFields(base, fields, ':');
    }

    method PrintRelations(relations: seq<Relation>)
      modifies this
      ensures out == old(out) + Join(RelationTexts(relations), ',')
    {
      ghost var base, texts := out, RelationTexts(relations);
      for i := 0 to |relations|
        invariant out == base + Join(texts[..i], ',')
      {
        if i != 0 {
          JoinField(base, texts, i, ',');
          Print(",");
        } else {
          assert texts[..1] == [texts[0]];
        }
        PrintRelation(relations[i]);
      }
      assert texts[..|relations|] == texts;
    }

    method PrintRelation(r: Relation)
      modifies this
      ensures out == old(out) + Join(RelationFields(r), ':')
    {
      ghost var base, fields := out, RelationFields(r);
      PrintRelationWords(r, fields);
      PrintRelationMasks(r, base, fields);
      PrintField(':', ForwardingName(r.forwarding), base, fields, 6);
      AllFields(base, fields, ':');
    }

    method PrintRelationWords(r: Relation, ghost fields: seq<string>)
      requires |fields| == 7 && fields[0] == Decimal(r.option) && fields[1] == RequirementName(r.requirement)
      requires fields[2] == OccurrenceName(r.occurrence) && fields[3] == SyntaxName(r.publicSyntax)
      modifies this
      ensures HasFields(old(out), fields, 4, ':')
    {
      ghost var base := out;
      PrintFirstField(Decimal(r.option), fields, ':');
      PrintField(':', RequirementName(r.requirement), base, fields, 1);
      PrintField(':', OccurrenceName(r.occurrence), base, fields, 2);
      PrintField(':', SyntaxName(r.publicSyntax), base, fields, 3);
    }

    method PrintRelationMasks(r: Relation, ghost base: string, ghost fields: seq<string>)
      requires |fields| == 7 && fields[4] == MaskText(r.effects, EFFECTS)
      requires fields[5] == MaskText(r.targets, FORWARDING_TARGETS) && HasFields(base, fields, 4, ':')
      modifies this
      ensures HasFields(base, fields, 6, ':')
    {
      PrintMaskField(r.effects, EFFECTS, base, fields, 4);
      PrintMaskField(r.targets, FORWARDING_TARGETS, base, fields, 5);
    }

    method PrintMaskField(mask: bv32, names: MaskTable, ghost base: string, ghost fields: seq<string>, ghost k: nat)
      requires 0 < k < |fields| && MaskText(mask, names) == fields[k] && HasFields(base, fields, k, ':')
      modifies this
      ensures HasFields(base, fields, k + 1, ':')
    {
      JoinField(base, fields, k, ':');
      Print(":");
      PrintMaskNames(mask, names);
    }

    method PrintTermsField(terms: seq<OperandTerm>, ghost base: string, ghost fields: seq<string>)
      requires |fields| > 5 && fields[5] == Join(TermTexts(terms), ',') && HasFields(base, fields, 5, '\t')
      modifies this
      ensures HasFields(base, fields, 6, '\t')
    {
      JoinField(base, fields, 5, '\t');
      Print("\t");
      PrintOperandTerms(terms);
    }

    method PrintRelationsField(relations: seq<Relation>, ghost base: string, ghost fields: seq<string>)
      requires |fields| > 6 && fields[6] == Join(RelationTexts(relations), ',') && HasFields(base, fields, 6, '\t')
      modifies this
      ensures HasFields(base, fields, 7, '\t')
    {
      JoinField(base, fields, 6, '\t');
      Print("\t");
      PrintRelations(relations);
    }

    method PrintForm(form: Form)
      modifies this
      ensures out == old(out) + FormText(form) + "\n"
    {
      ghost var base, fields := out, FormFields(form);
      PrintFirstField("FORM", fields, '\t');
      PrintField('\t', form.token, base, fields, 1);
      PrintField('\t', form.syntax, base, fields, 2);
      PrintField('\t', PolicyName(form.policy), base, fields, 3);
      PrintField('\t', OrderingName(form.ordering), base, fields, 4);
      PrintTermsField(form.terms, base, fields);
      PrintRelationsField(form.relations, base, fields);
      PrintField('\t', TailName(form.tail), base, fields, 7);
      AllFields(base, fields, '\t');
      Print("\n");
    }

    method PrintForms(forms: seq<Form>)
      modifies this
      ensures out == old(out) + Printed(FormTexts(forms))
    {
      ghost var base, texts := out, FormTexts(forms);
      for i := 0 to |forms|
        invariant out == base + Printed(texts[..i])
      {
        PrintedNext(base, texts, i);
        PrintForm(forms[i]);
      }
      assert texts[..|forms|] == texts;
    }

    method PrintOperation(token: string)
      modifies this
      ensures out == old(out) + OperationText(token) + "\n"
    {
      ghost var base, fields := out, OperationFields(token);
      assert fields[..1] == [fields[0]];
      Print("OPERATION");
      PrintField('\t', token, base, fields, 1);
      PrintField('\t', "closed", base, fields, 2);
      assert fields[..3] == fields;
      Print("\n");
    }

    /** The closed part of the exported grammar. */
    method PrintOperations(operations: seq<Operation>)
      modifies this
      ensures out == old(out) + Printed(GrammarLines(operations))
    {
      ghost var base := out;
      for i := 0 to |operations|
        invariant out == base + Printed(GrammarLines(operations[..i]))
      {
        GrammarNext(base, operations, i);
        PrintOperation(operations[i].token);
        PrintForms(operations[i].forms);
      }
      assert operations[..|operations|] == operations;
    }
  }

  lemma PrintedNext(base: string, lines: seq<string>, i: nat)
    requires i < |lines|
    ensures base + Printed(lines[..i + 1]) == base + Printed(lines[..i]) + lines[i] + "\n"
  {
    assert lines[..i + 1][..i] == lines[..i];
  }

  /** The lines of one operation. */
  function OperationLines(operation: Operation): seq<string> {
    [OperationText(operation.token)] + FormTexts(operation.forms)
  }

  lemma GrammarNext(base: string, operations: seq<Operation>, i: nat)
    requires i < |operations|
    ensures var operation := operations[i];
      base + Printed(GrammarLines(operations[..i + 1]))
      == base + Printed(GrammarLines(operations[..i])) + OperationText(operation.token) + "\n"
         + Printed(FormTexts(operation.forms))
  {
    var earlier, operation := GrammarLines(operations[..i]), operations[i];
    assert operations[..i + 1][..i] == operations[..i];
    PrintedTogether(earlier, OperationLines(operation));
    OperationPrinted(operation);
    Regroup(base, Printed(earlier), OperationText(operation.token), Printed(FormTexts(operation.forms)));
  }

  lemma OperationPrinted(operation: Operation)
    ensures Printed(OperationLines(operation))
         == OperationText(operation.token) + "\n" + Printed(FormTexts(operation.forms))
  {
    PrintedTogether([OperationText(operation.token)], FormTexts(operation.forms));
    PrintedOne(OperationText(operation.token));
  }

  lemma Regroup(a: string, b: string, c: string, d: string)
    ensures a + (b + (c + "\n" + d)) == a + b + c + "\n" + d
  {
  }

  lemma PrintedOne(line: string)
    ensures Printed([line]) == line + "\n"
  {
    assert [line][..0] == [];
  }

  lemma UntakenBit(remaining: bv32, bit: bv32)
    requires !Overlaps(remaining, bit)
    ensures Cleared(remaining, bit) == remaining
  {
  }

  // ----- the order options are printed in -----

  /** Every option identity below `optionCount` stands in the order exactly once. */
  ghost predicate ListsEachOnce(order: seq<nat>, optionCount: nat) {
    && (forall i, j | 0 <= i < j < |order| :: order[i] != order[j])
    && (forall i | 0 <= i < |order| :: order[i] < optionCount)
    && (forall id: nat | id < optionCount :: id in order)
  }

  ghost function Below(n: nat): (r: set<nat>)
    ensures forall id: nat :: id in r <==> id < n
  {
    if n == 0 then {} else Below(n - 1) + {n - 1}
  }

  lemma {:induction false} BelowCounts(n: nat)
    ensures |Below(n)| == n
  {
    if n > 0 {
      BelowCounts(n - 1);
    }
  }

  ghost function Ids(order: seq<nat>): set<nat> {
    set id | id in order
  }

  lemma {:induction false} DistinctIdsCount(order: seq<nat>)
    requires forall i, j | 0 <= i < j < |order| :: order[i] != order[j]
    ensures |Ids(order)| == |order|
  {
    if order != [] {
      var init, last := order[..|order| - 1], order[|order| - 1];
      DistinctIdsCount(init);
      assert order == init + [last];
      assert Ids(order) == Ids(init) + {last} && last !in Ids(init);
    }
  }

  lemma SubsetCounts(small: set<nat>, big: set<nat>)
    requires small <= big
    ensures |small| <= |big| && (|small| == |big| ==> small == big)
  {
    assert |big - small| == |big| - |small|;
    if |small| == |big| {
      assert big - small == {};
    }
  }

  /** As many different identities as there are options leave none out. */
  lemma NoneLeftOut(order: seq<nat>, optionCount: nat)
    requires forall i, j | 0 <= i < j < |order| :: order[i] != order[j]
    requires forall i | 0 <= i < |order| :: order[i] < optionCount
    ensures |order| == optionCount <==> forall id: nat | id < optionCount :: id in order
  {
    DistinctIdsCount(order);
    BelowCounts(optionCount);
    SubsetCounts(Ids(order), Below(optionCount));
    if |order| == optionCount {
      forall id: nat | id < optionCount ensures id in order {
        assert id in Below(optionCount);
      }
    }
    if forall id: nat | id < optionCount :: id in order {
      assert Below(optionCount) == Ids(order);
    }
  }

  method IsCompleteOptionProjectionOrder(order: seq<nat>, optionCount: nat) returns (complete: bool)
    ensures complete <==> ListsEachOnce(order, optionCount)
  {
    if |order| != optionCount {
      ghost var isDistinct := forall i, j | 0 <= i < j < |order| :: order[i] != order[j];
      if isDistinct && forall i | 0 <= i < |order| :: order[i] < optionCount {
        NoneLeftOut(order, optionCount);
      }
      return false;
    }
    var seen := new bool[optionCount](_ => false);
    for i := 0 to |order|
      invariant forall k | 0 <= k < i :: order[k] < optionCount
      invariant forall j, k | 0 <= j < k < i :: order[j] != order[k]
      invariant forall id: nat | id < optionCount :: seen[id] <==> id in order[..i]
    {
      var index := order[i];
      if index >= seen.Length || seen[index] {
        if index < seen.Length {
          var k :| 0 <= k < i && order[k] == index;
        }
        return false;
      }
      seen[index] := true;
      assert order[..i + 1] == order[..i] + [index];
    }
    NoneLeftOut(order, optionCount);
    complete := true;
  }
}
