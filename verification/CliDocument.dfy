/**
 The whole printed grammar: its lines come back from the text, and the loader's
 grammar is the one that was printed.
 */
module CliDocument {
  import opened Wrappers
  import opened TextLists
  import opened CliAuthority
  import opened CompletionLoader
  import opened CliRoundTrip

  // ----- lines -----

  ghost predicate IsLine(line: string) {
    forall c | c in line :: !IsLineEnd(c)
  }

  lemma {:induction false} LineEndIs(text: string, start: nat, end: nat)
    requires start <= end <= |text| && (forall k | start <= k < end :: !IsLineEnd(text[k]))
    requires end < |text| ==> IsLineEnd(text[end])
    ensures LineEnd(text, start) == end
    decreases end - start
  {
    if start < end {
      LineEndIs(text, start + 1, end);
    }
  }

  /** The first line from `start` on is `line`. */
  ghost predicate SplitsOff(text: string, start: nat, line: string) {
    && start + |line| < |text|
    && SplitLines(text, start) == [line] + SplitLines(text, start + |line| + 1)
  }

  lemma NewlineEndsLine(text: string, start: nat, line: string)
    requires start + |line| < |text| && LineEnd(text, start) == start + |line| && text[start + |line|] == '\n'
    requires text[start..start + |line|] == line
    ensures SplitsOff(text, start, line)
  {
  }

  lemma LineStops(text: string, start: nat, line: string, rest: string)
    requires start <= |text| && text[start..] == line + rest && IsLine(line) && rest != "" && rest[0] == '\n'
    ensures start + |line| < |text| && text[start + |line|] == '\n' && LineEnd(text, start) == start + |line|
  {
    var end := start + |line|;
    forall k | start <= k < end ensures !IsLineEnd(text[k]) {
      assert text[k] == text[start..][k - start] == line[k - start];
    }
    assert text[end] == text[start..][|line|] == '\n';
    LineEndIs(text, start, end);
  }

  lemma Parts(text: string, start: nat, line: string, rest: string)
    requires start <= |text| && text[start..] == line + rest && rest != ""
    ensures start + |line| < |text|
    ensures text[start..start + |line|] == line && text[start + |line| + 1..] == rest[1..]
  {
    var end := start + |line|;
    assert text[start..end] == text[start..][..|line|] == line;
    assert text[end..] == text[start..][|line|..] == rest;
  }

  /** `lines` are what is left of the text from `start` on. */
  ghost predicate Remain(text: string, start: nat, lines: seq<string>) {
    start <= |text| && text[start..] == Printed(lines) && forall line | line in lines :: IsLine(line)
  }

  lemma NextLineRemains(text: string, start: nat, lines: seq<string>)
    requires Remain(text, start, lines) && lines != []
    ensures Remain(text, start + |lines[0]| + 1, lines[1..]) && SplitsOff(text, start, lines[0])
  {
    var head, tail := lines[0], lines[1..];
    var rest := "\n" + Printed(tail);
    PrintedTogether([head], tail);
    PrintedOne(head);
    assert [head] + tail == lines;
    assert text[start..] == head + rest && rest[1..] == Printed(tail);
    LineStops(text, start, head, rest);
    Parts(text, start, head, rest);
    NewlineEndsLine(text, start, lines[0]);
  }

  lemma NothingRemains(text: string, start: nat)
    requires Remain(text, start, [])
    ensures SplitLines(text, start) == []
  {
  }

  ghost predicate AreLinesFrom(text: string, start: nat, lines: seq<string>) {
    start <= |text| && SplitLines(text, start) == lines
  }

  /** Printed lines come back, whatever they hold but line ends. */
  lemma {:induction false} LinesComeBack(text: string, start: nat, lines: seq<string>)
    requires Remain(text, start, lines)
    ensures AreLinesFrom(text, start, lines)
    decreases |lines|
  {
    if lines == [] {
      NothingRemains(text, start);
    } else {
      NextLineRemains(text, start, lines);
      LinesComeBack(text, start + |lines[0]| + 1, lines[1..]);
      HeadAndTail(text, start, lines);
    }
  }

  lemma HeadAndTail(text: string, start: nat, lines: seq<string>)
    requires lines != [] && SplitsOff(text, start, lines[0])
    requires AreLinesFrom(text, start + |lines[0]| + 1, lines[1..])
    ensures AreLinesFrom(text, start, lines)
  {
  }

  // ----- the printed records are lines -----

  lemma FormTextIsLine(form: Form)
    requires IsPrintable(form)
    ensures IsLine(FormText(form))
  {
    forall c | IsLineEnd(c) ensures Free(FormText(form), c) {
      FormFieldsFree(form, c);
      JoinFree(FormFields(form), '\t', c);
    }
  }

  lemma FormFieldsFree(form: Form, c: char)
    requires IsPrintable(form) && IsLineEnd(c)
    ensures forall f | f in FormFields(form) :: Free(f, c)
  {
    assert Free("FORM", c);
    PolicyIsWire(form.policy);
    WireNameFree(PolicyName(form.policy), c);
    OrderingIsWire(form.ordering);
    WireNameFree(OrderingName(form.ordering), c);
    TailIsWire(form.tail);
    WireNameFree(TailName(form.tail), c);
    TermListFree(form.terms, c);
    RelationListFree(form.relations, c);
  }

  lemma TermListFree(terms: seq<OperandTerm>, c: char)
    requires IsLineEnd(c)
    ensures Free(Join(TermTexts(terms), ','), c)
  {
    forall i | 0 <= i < |terms| ensures Free(TermText(terms[i]), c) {
      TermTextFree(terms[i], c);
    }
    JoinFree(TermTexts(terms), ',', c);
  }

  lemma RelationListFree(relations: seq<Relation>, c: char)
    requires IsLineEnd(c)
    ensures Free(Join(RelationTexts(relations), ','), c)
  {
    forall i | 0 <= i < |relations| ensures Free(Join(RelationFields(relations[i]), ':'), c) {
      RelationTextFree(relations[i], c);
    }
    JoinFree(RelationTexts(relations), ',', c);
  }

  lemma HeaderSplits(token: string)
    requires IsField(token)
    ensures Split(OperationText(token), '\t') == OperationFields(token) && IsLine(OperationText(token))
  {
    forall p | p in OperationFields(token) ensures Free(p, '\t') {
    }
    SplitJoin(OperationFields(token), '\t');
    forall c | IsLineEnd(c) ensures Free(OperationText(token), c) {
      JoinFree(OperationFields(token), '\t', c);
    }
  }

  // ----- operations -----

  /** An operation as the exporter prints it: every form carries its token. */
  ghost predicate IsOperation(operation: Operation) {
    && operation.token != "" && IsField(operation.token)
    && forall i | 0 <= i < |operation.forms| ::
         operation.forms[i].token == operation.token && IsPrintable(operation.forms[i])
  }

  ghost predicate AreOperations(operations: seq<Operation>) {
    forall i | 0 <= i < |operations| :: IsOperation(operations[i])
  }

  lemma {:induction false} GrammarLinesAreLines(operations: seq<Operation>)
    requires AreOperations(operations)
    ensures forall line | line in GrammarLines(operations) :: IsLine(line)
  {
    if operations != [] {
      var last := operations[|operations| - 1];
      GrammarLinesAreLines(operations[..|operations| - 1]);
      HeaderSplits(last.token);
      forall i | 0 <= i < |last.forms| ensures IsLine(FormText(last.forms[i])) {
        FormTextIsLine(last.forms[i]);
      }
    }
  }

  ghost predicate IsLoadable(form: Form) {
    HasRanges(form.terms) && HaveNames(form.relations)
  }

  ghost predicate AreLoadable(forms: seq<Form>) {
    forall i | 0 <= i < |forms| :: IsLoadable(forms[i])
  }

  function LoadedFormsOf(forms: seq<Form>): (r: seq<LoadedForm>)
    ensures |r| == |forms|
  {
    seq(|forms|, i requires 0 <= i < |forms| => LoadedFormOf(forms[i]))
  }

  /** The grammar with more forms for an operation it already holds. */
  ghost function WithForms(g: Grammar, token: string, forms: seq<LoadedForm>): Grammar {
    var existing := OperationIn(g, token);
    g.(operations := g.operations[token := existing.(forms := existing.forms + forms)])
  }

  lemma OneFormLoads(g: Grammar, form: Form)
    requires IsPrintable(form) && (form.token, "closed") in g.modes
    ensures LoadLine(g, FormText(form)) ==
      if IsLoadable(form) then Some(WithForms(g, form.token, [LoadedFormOf(form)])) else None
  {
    assert form.token in ClosedTokens(g);
    FormRoundTrip(form, ClosedTokens(g));
    FormSplits(form);
    assert FormFields(form)[0] == "FORM" && |"FORM"| == 4 && |"OPERATION"| == 9;
  }

  lemma FirstFormLoads(g: Grammar, token: string, forms: seq<Form>)
    requires (token, "closed") in g.modes && forms != [] && forms[0].token == token && IsPrintable(forms[0])
    ensures LoadFrom(g, FormTexts(forms)) ==
      if IsLoadable(forms[0]) then LoadFrom(WithForms(g, token, [LoadedFormOf(forms[0])]), FormTexts(forms[1..]))
      else None
  {
    assert FormTexts(forms)[0] == FormText(forms[0]) && FormTexts(forms)[1..] == FormTexts(forms[1..]);
    OneFormLoads(g, forms[0]);
  }

  lemma {:induction false} FormsLoad(g: Grammar, token: string, forms: seq<Form>)
    requires (token, "closed") in g.modes && token in g.operations
    requires forall i | 0 <= i < |forms| :: forms[i].token == token && IsPrintable(forms[i])
    ensures LoadFrom(g, FormTexts(forms)) ==
      if AreLoadable(forms) then Some(WithForms(g, token, LoadedFormsOf(forms))) else None
    decreases |forms|
  {
    if forms == [] {
      NoFormsAdded(g, token);
    } else {
      var head, tail := forms[0], forms[1..];
      FirstFormLoads(g, token, forms);
      OneMoreLoadable(forms);
      if IsLoadable(head) {
        FormsLoad(WithForms(g, token, [LoadedFormOf(head)]), token, tail);
        FormsInTurn(g, token, [LoadedFormOf(head)], LoadedFormsOf(tail));
      }
    }
  }

  lemma NoFormsAdded(g: Grammar, token: string)
    requires token in g.operations
    ensures WithForms(g, token, []) == g
  {
    assert g.operations[token].forms + [] == g.operations[token].forms;
    assert g.operations[token := g.operations[token]] == g.operations;
  }

  lemma OneMoreLoadable(forms: seq<Form>)
    requires forms != []
    ensures AreLoadable(forms) <==> IsLoadable(forms[0]) && AreLoadable(forms[1..])
    ensures LoadedFormsOf(forms) == [LoadedFormOf(forms[0])] + LoadedFormsOf(forms[1..])
  {
    if IsLoadable(forms[0]) && AreLoadable(forms[1..]) {
      forall i | 0 <= i < |forms| ensures IsLoadable(forms[i]) {
        assert i > 0 ==> forms[i] == forms[1..][i - 1];
      }
    }
  }

  lemma FormsInTurn(g: Grammar, token: string, a: seq<LoadedForm>, b: seq<LoadedForm>)
    ensures WithForms(WithForms(g, token, a), token, b) == WithForms(g, token, a + b)
  {
    var existing := OperationIn(g, token);
    assert existing.forms + a + b == existing.forms + (a + b);
    var once := g.operations[token := existing.(forms := existing.forms + a)];
    var last := existing.(forms := existing.forms + (a + b));
    assert once[token := last] == g.operations[token := last];
  }

  // ----- the whole document -----

  lemma {:induction false} LoadInTurn(g: Grammar, a: seq<string>, b: seq<string>)
    ensures LoadFrom(g, a + b) ==
      if LoadFrom(g, a).None? then None else LoadFrom(LoadFrom(g, a).value, b)
    decreases |a|
  {
    if a == [] {
      assert a + b == b;
    } else {
      assert (a + b)[1..] == a[1..] + b;
      var next := LoadLine(g, a[0]);
      if next.Some? {
        LoadInTurn(next.value, a[1..], b);
      }
    }
  }

  /** The grammar with one more closed operation. */
  ghost function WithOperation(g: Grammar, operation: Operation): Grammar {
    var existing := OperationIn(g, operation.token);
    Grammar(
      g.modes + {(operation.token, "closed")},
      g.operations[operation.token := existing.(forms := existing.forms + LoadedFormsOf(operation.forms))])
  }

  lemma HeaderLoads(g: Grammar, token: string)
    requires token != "" && IsField(token)
    ensures LoadLine(g, OperationText(token)) ==
      if (token, "closed") in g.modes then None
      else Some(Grammar(g.modes + {(token, "closed")}, g.operations[token := OperationIn(g, token)]))
  {
    HeaderSplits(token);
    assert OperationFields(token)[2] == "closed";
  }

  lemma OperationLoads(g: Grammar, operation: Operation)
    requires IsOperation(operation)
    ensures LoadFrom(g, OperationLines(operation)) ==
      if (operation.token, "closed") !in g.modes && AreLoadable(operation.forms)
      then Some(WithOperation(g, operation)) else None
  {
    var token := operation.token;
    var header := OperationText(token);
    HeaderLoads(g, token);
    assert OperationLines(operation)[0] == header && OperationLines(operation)[1..] == FormTexts(operation.forms);
    if (token, "closed") !in g.modes {
      var announced := Grammar(g.modes + {(token, "closed")}, g.operations[token := OperationIn(g, token)]);
      FormsLoad(announced, token, operation.forms);
      AnnouncedFirst(g, announced, operation);
    }
  }

  lemma AnnouncedFirst(g: Grammar, announced: Grammar, operation: Operation)
    requires announced == Grammar(
      g.modes + {(operation.token, "closed")}, g.operations[operation.token := OperationIn(g, operation.token)])
    ensures WithForms(announced, operation.token, LoadedFormsOf(operation.forms)) == WithOperation(g, operation)
  {
    var existing := OperationIn(g, operation.token);
    var last := existing.(forms := existing.forms + LoadedFormsOf(operation.forms));
    assert announced.operations[operation.token := last] == g.operations[operation.token := last];
  }

  function Tokens(operations: seq<Operation>): (r: seq<string>)
    ensures |r| == |operations|
  {
    seq(|operations|, i requires 0 <= i < |operations| => operations[i].token)
  }

  /** What a document of closed operations holds. */
  ghost function GrammarOf(operations: seq<Operation>): Grammar {
    if operations == [] then NO_GRAMMAR
    else
      var last := operations[|operations| - 1];
      WithOperation(GrammarOf(operations[..|operations| - 1]), last)
  }

  /** Each operation is announced once, and the loader takes all of its forms. */
  ghost predicate IsAccepted(operations: seq<Operation>) {
    AreDistinct(Tokens(operations)) && forall i | 0 <= i < |operations| :: AreLoadable(operations[i].forms)
  }

  lemma {:induction false} ModesOf(operations: seq<Operation>)
    ensures forall m :: m in GrammarOf(operations).modes <==> m.1 == "closed" && m.0 in Tokens(operations)
  {
    if operations != [] {
      var most, last := operations[..|operations| - 1], operations[|operations| - 1];
      ModesOf(most);
      assert Tokens(operations) == Tokens(most) + [last.token];
    }
  }

  lemma OneMoreAccepted(operations: seq<Operation>)
    requires operations != []
    ensures var most, last := operations[..|operations| - 1], operations[|operations| - 1];
      IsAccepted(operations) <==>
        IsAccepted(most) && last.token !in Tokens(most) && AreLoadable(last.forms)
  {
    var n := |operations| - 1;
    var most, last := operations[..n], operations[n];
    assert Tokens(operations) == Tokens(most) + [last.token];
    if IsAccepted(operations) {
      forall j | 0 <= j < n ensures Tokens(most)[j] != last.token && AreLoadable(most[j].forms) {
        assert Tokens(operations)[j] != Tokens(operations)[n] && most[j] == operations[j];
      }
      forall i, j | 0 <= i < j < n ensures Tokens(most)[i] != Tokens(most)[j] {
        assert Tokens(operations)[i] != Tokens(operations)[j];
      }
    }
  }

  lemma {:induction false} OperationsLoad(operations: seq<Operation>)
    requires AreOperations(operations)
    ensures LoadFrom(NO_GRAMMAR, GrammarLines(operations)) ==
      if IsAccepted(operations) then Some(GrammarOf(operations)) else None
  {
    if operations != [] {
      var most, last := operations[..|operations| - 1], operations[|operations| - 1];
      OperationsLoad(most);
      OneMoreAccepted(operations);
      LoadInTurn(NO_GRAMMAR, GrammarLines(most), OperationLines(last));
      if IsAccepted(most) {
        OperationLoads(GrammarOf(most), last);
        ModesOf(most);
      }
    }
  }

  /** A printed grammar is loaded as the operations it was printed from, exactly
      when no operation is announced twice, every operand range is non-empty and
      every mask bit has a name; otherwise the document is refused. */
  lemma DocumentRoundTrip(operations: seq<Operation>)
    requires AreOperations(operations)
    ensures GrammarIn(Printed(GrammarLines(operations))) ==
      if IsAccepted(operations) then Some(GrammarOf(operations)) else None
  {
    var text := Printed(GrammarLines(operations));
    assert text[0..] == text;
    GrammarLinesAreLines(operations);
    LinesComeBack(text, 0, GrammarLines(operations));
    OperationsLoad(operations);
  }

  /** The grammar of an accepted list holds each operation with its forms in their
      order, and nothing else. */
  lemma {:induction false} GrammarHolds(operations: seq<Operation>)
    requires IsAccepted(operations)
    ensures forall token :: token in GrammarOf(operations).operations <==> token in Tokens(operations)
    ensures forall i | 0 <= i < |operations| ::
      OperationIn(GrammarOf(operations), operations[i].token)
      == LoadedOperation(false, LoadedFormsOf(operations[i].forms))
  {
    if operations != [] {
      var n := |operations| - 1;
      var most, last := operations[..n], operations[n];
      OneMoreAccepted(operations);
      GrammarHolds(most);
      assert Tokens(operations) == Tokens(most) + [last.token];
      assert [] + LoadedFormsOf(last.forms) == LoadedFormsOf(last.forms);
      forall i | 0 <= i < n
        ensures OperationIn(GrammarOf(operations), operations[i].token)
          == LoadedOperation(false, LoadedFormsOf(operations[i].forms))
      {
        assert most[i] == operations[i] && Tokens(most)[i] == operations[i].token;
      }
    }
  }

  lemma FormsAreTheSame(a: seq<Form>, b: seq<Form>, token: string)
    requires AreLoadable(a) && AreLoadable(b) && LoadedFormsOf(a) == LoadedFormsOf(b)
    requires (forall f | f in a :: f.token == token) && (forall f | f in b :: f.token == token)
    ensures a == b
  {
    forall i | 0 <= i < |a| ensures a[i] == b[i] {
      assert LoadedFormsOf(a)[i] == LoadedFormsOf(b)[i] && a[i] in a && b[i] in b;
      LoadedFormInjective(a[i], b[i]);
    }
  }

  /** Nothing of the grammar is lost: two documents that load the same hold the same
      operations, each with the same forms. */
  lemma DocumentLosesNothing(a: seq<Operation>, b: seq<Operation>, i: nat) returns (j: nat)
    requires AreOperations(a) && AreOperations(b) && IsAccepted(a) && i < |a|
    requires GrammarIn(Printed(GrammarLines(a))) == GrammarIn(Printed(GrammarLines(b)))
    ensures |a| == |b| && j < |b| && b[j] == a[i]
  {
    DocumentRoundTrip(a);
    DocumentRoundTrip(b);
    assert IsAccepted(b) && GrammarOf(a) == GrammarOf(b);
    GrammarHolds(a);
    GrammarHolds(b);
    SameTokens(Tokens(a), Tokens(b));
    assert Tokens(a)[i] in Tokens(b);
    j :| 0 <= j < |b| && Tokens(b)[j] == a[i].token;
    FormsAreTheSame(a[i].forms, b[j].forms, a[i].token);
  }

  lemma SameTokens(a: seq<string>, b: seq<string>)
    requires AreDistinct(a) && AreDistinct(b) && forall t :: t in a <==> t in b
    ensures |a| == |b|
  {
    DistinctCount(a);
    DistinctCount(b);
    assert (set t | t in a) == set t | t in b;
  }

  lemma {:induction false} DistinctCount(a: seq<string>)
    requires AreDistinct(a)
    ensures |set t | t in a| == |a|
  {
    if a != [] {
      var most, last := a[..|a| - 1], a[|a| - 1];
      DistinctCount(most);
      assert a == most + [last];
      assert (set t | t in a) == (set t | t in most) + {last};
    }
  }
}
