/**
 The completion generator's loader of exported grammar records.  It trusts no
 value it does not know.
 */
module CompletionLoader {
  import opened Wrappers
  import opened TextLists

  const KNOWN_OPERAND_KINDS: set<string> := {
    "none", "package", "directory", "patch-directory", "patch-file", "package-base", "query",
    "source-preference-item", "environment-assignment", "delegated-pacman-argument"}
  const KNOWN_OPTION_OCCURRENCES: set<string> := {"once", "repeat-idempotent", "repeat-same-value", "delegated"}
  const KNOWN_RELATION_REQUIREMENTS: set<string> := {"optional", "required"}
  const KNOWN_PUBLIC_SYNTAX: set<string> := {"hidden", "optional", "required"}
  const KNOWN_SEMANTIC_EFFECTS: set<string> := {
    "none", "moguet-control", "upstream-argument", "final-install-semantic", "parser-boundary"}
  const KNOWN_FORWARDING_TARGETS: set<string> := {"none", "pacman", "makepkg", "final-install-pacman"}
  const KNOWN_FORWARDING_OCCURRENCES: set<string> := {"none", "preserve-all", "consolidate-single"}
  const KNOWN_DELEGATED_TAIL_POLICIES: set<string> := {"none", "repository-only"}

  /** `maxCount` is absent for an unbounded term. */
  datatype LoadedTerm = LoadedTerm(kind: string, minCount: nat, maxCount: Option<nat>)

  datatype LoadedRelation = LoadedRelation(
    identity: nat, requirement: string, occurrence: string, publicSyntax: string,
    effects: seq<string>, targets: seq<string>, forwarding: string)

  datatype LoadedForm = LoadedForm(
    syntax: string, policy: string, ordering: string,
    terms: seq<LoadedTerm>, relations: seq<LoadedRelation>, tail: string)

  /** An announced operation with its forms, and all of them by token. */
  datatype LoadedOperation = LoadedOperation(isOpen: bool, forms: seq<LoadedForm>)

  datatype Grammar = Grammar(modes: set<(string, string)>, operations: map<string, LoadedOperation>)

  datatype FormRecord = OtherRecord | Refused | FormRecord(token: string, form: LoadedForm)

  // ----- integers as the generator's language reads them -----

  predicate IsSpace(c: char) {
    c in {' ', '\t', '\n', '\r', '\U{000B}', '\U{000C}', '\U{001C}', '\U{001D}', '\U{001E}', '\U{001F}'}
  }

  function TrimStart(s: string): string {
    if s != "" && IsSpace(s[0]) then TrimStart(s[1..]) else s
  }

  function TrimEnd(s: string): string {
    if s != "" && IsSpace(s[|s| - 1]) then TrimEnd(s[..|s| - 1]) else s
  }

  /** Digits, with single underscores allowed between them. */
  predicate IsGroupedDigits(s: string) {
    && s != "" && IsDigit(s[0]) && IsDigit(s[|s| - 1])
    && forall i | 0 <= i < |s| :: IsDigit(s[i]) || (s[i] == '_' && i > 0 && s[i - 1] != '_')
  }

  function OnlyDigits(s: string): (r: string)
    ensures AllDigits(r)
  {
    if s == "" then ""
    else OnlyDigits(s[..|s| - 1]) + (if IsDigit(s[|s| - 1]) then [s[|s| - 1]] else [])
  }

  function ParseInt(s: string): Option<int> {
    var text := TrimEnd(TrimStart(s));
    var isSigned := text != "" && (text[0] == '+' || text[0] == '-');
    var digits := if isSigned then text[1..] else text;
    if !IsGroupedDigits(digits) then None
    else
      var value: int := DecimalValue(OnlyDigits(digits));
      Some(if isSigned && text[0] == '-' then -value else value)
  }

  function ParseIdentity(s: string): Option<nat> {
    var value := ParseInt(s);
    if value.None? || value.value < 0 then None else Some(value.value)
  }

  // ----- lists -----

  function ParseCommaList(value: string): Option<seq<string>> {
    if value == "" then Some([])
    else
      var items := Split(value, ',');
      if exists i | 0 <= i < |items| :: items[i] == "" then None else Some(items)
  }

  predicate AreKnown(names: seq<string>, known: set<string>) {
    forall i | 0 <= i < |names| :: names[i] in known
  }

  function ParseNameSet(value: string, known: set<string>): Option<seq<string>> {
    var names := if value == "" then [] else Split(value, '+');
    if names == [] || !AreKnown(names, known) then None
    else if !AreDistinct(names) then None
    else if "none" in names && |names| != 1 then None
    else Some(names)
  }

  // ----- records -----

  function TermOf(encoded: string): Option<LoadedTerm> {
    var fields := Split(encoded, ':');
    if |fields| != 3 || fields[0] !in KNOWN_OPERAND_KINDS then None
    else
      var minCount := ParseInt(fields[1]);
      var maxCount := if fields[2] == "*" then None else ParseInt(fields[2]);
      if minCount.None? || (fields[2] != "*" && maxCount.None?) then None
      else if minCount.value < 0 || (maxCount.Some? && maxCount.value < minCount.value) then None
      else Some(LoadedTerm(fields[0], minCount.value, if maxCount.None? then None else Some(maxCount.value)))
  }

  function RelationOf(encoded: string): Option<LoadedRelation> {
    var fields := Split(encoded, ':');
    if |fields| != 7 then None
    else if fields[1] !in KNOWN_RELATION_REQUIREMENTS || fields[2] !in KNOWN_OPTION_OCCURRENCES
      || fields[3] !in KNOWN_PUBLIC_SYNTAX || fields[6] !in KNOWN_FORWARDING_OCCURRENCES then None
    else
      var identity := ParseIdentity(fields[0]);
      var effects := ParseNameSet(fields[4], KNOWN_SEMANTIC_EFFECTS);
      var targets := ParseNameSet(fields[5], KNOWN_FORWARDING_TARGETS);
      if identity.None? || effects.None? || targets.None? then None
      else Some(LoadedRelation(
        identity.value, fields[1], fields[2], fields[3], effects.value, targets.value, fields[6]))
  }

  /** Every item parsed in order, or nothing when one of them is refused. */
  function ParseAll<T>(items: seq<string>, parse: string -> Option<T>): Option<seq<T>> {
    if items == [] then Some([])
    else
      var init, last := ParseAll(items[..|items| - 1], parse), parse(items[|items| - 1]);
      if init.None? || last.None? then None else Some(init.value + [last.value])
  }

  function TermsOf(value: string): Option<seq<LoadedTerm>> {
    var items := ParseCommaList(value);
    if items.None? then None else ParseAll(items.value, TermOf)
  }

  function RelationsOf(value: string): Option<seq<LoadedRelation>> {
    var items := ParseCommaList(value);
    if items.None? then None else ParseAll(items.value, RelationOf)
  }

  /** The form record of one exported line; `closed` holds the tokens already
      announced as closed operations. */
  function FormOf(line: string, closed: set<string>): FormRecord {
    var fields := Split(line, '\t');
    if fields[0] != "FORM" || |fields| != 8 then OtherRecord
    else if fields[1] !in closed then Refused
    else
      var terms := TermsOf(fields[5]);
      var relations := RelationsOf(fields[6]);
      if terms.None? || relations.None? || fields[7] !in KNOWN_DELEGATED_TAIL_POLICIES then Refused
      else FormRecord(
        fields[1], LoadedForm(fields[2], fields[3], fields[4], terms.value, relations.value, fields[7]))
  }

  lemma {:induction false} RefusedStaysRefused<T>(items: seq<string>, parse: string -> Option<T>, n: nat)
    requires n <= |items| && ParseAll(items[..n], parse).None?
    ensures ParseAll(items, parse).None?
    decreases |items| - n
  {
    if n < |items| {
      assert items[..n + 1][..n] == items[..n];
      RefusedStaysRefused(items, parse, n + 1);
    } else {
      assert items[..n] == items;
    }
  }

  ghost predicate ParsedUpTo<T>(items: seq<string>, parse: string -> Option<T>, i: nat, parsed: seq<T>) {
    i <= |items| && ParseAll(items[..i], parse) == Some(parsed)
  }

  lemma ParseNext<T>(items: seq<string>, parse: string -> Option<T>, i: nat, parsed: seq<T>)
    requires i < |items| && ParsedUpTo(items, parse, i, parsed)
    ensures parse(items[i]).None? ==> ParseAll(items, parse).None?
    ensures parse(items[i]).Some? ==> ParsedUpTo(items, parse, i + 1, parsed + [parse(items[i]).value])
  {
    assert items[..i + 1][..i] == items[..i];
    if parse(items[i]).None? {
      RefusedStaysRefused(items, parse, i + 1);
    }
  }

  method ParseOperandTerms(value: string) returns (terms: Option<seq<LoadedTerm>>)
    ensures terms == TermsOf(value)
  {
    var items := ParseCommaList(value);
    if items.None? {
      return None;
    }
    var parsed: seq<LoadedTerm> := [];
    for i := 0 to |items.value|
      invariant ParsedUpTo(items.value, TermOf, i, parsed)
    {
      ParseNext(items.value, TermOf, i, parsed);
      var term := TermOf(items.value[i]);
      if term.None? {
        return None;
      }
      parsed := parsed + [term.value];
    }
    assert items.value[..|items.value|] == items.value;
    terms := Some(parsed);
  }

  method ParseOptionRelations(value: string) returns (relations: Option<seq<LoadedRelation>>)
    ensures relations == RelationsOf(value)
  {
    var items := ParseCommaList(value);
    if items.None? {
      return None;
    }
    var parsed: seq<LoadedRelation> := [];
    for i := 0 to |items.value|
      invariant ParsedUpTo(items.value, RelationOf, i, parsed)
    {
      ParseNext(items.value, RelationOf, i, parsed);
      var relation := RelationOf(items.value[i]);
      if relation.None? {
        return None;
      }
      parsed := parsed + [relation.value];
    }
    assert items.value[..|items.value|] == items.value;
    relations := Some(parsed);
  }

  method ParseFormRecord(line: string, closed: set<string>) returns (record: FormRecord)
    ensures record == FormOf(line, closed)
  {
    var fields := Split(line, '\t');
    if fields[0] != "FORM" || |fields| != 8 {
      return OtherRecord;
    }
    if fields[1] !in closed {
      return Refused;
    }
    var terms := ParseOperandTerms(fields[5]);
    var relations := ParseOptionRelations(fields[6]);
    if terms.None? || relations.None? || fields[7] !in KNOWN_DELEGATED_TAIL_POLICIES {
      return Refused;
    }
    record := FormRecord(
      fields[1], LoadedForm(fields[2], fields[3], fields[4], terms.value, relations.value, fields[7]));
  }

  // ----- the whole document -----

  /** The characters that end a line for the generator's language. */
  predicate IsLineEnd(c: char) {
    c in {
      '\n', '\r', '\U{000B}', '\U{000C}', '\U{001C}', '\U{001D}', '\U{001E}', '\U{0085}', '\U{2028}', '\U{2029}'}
  }

  function LineEnd(text: string, start: nat): (r: nat)
    requires start <= |text|
    ensures start <= r <= |text|
    decreases |text| - start
  {
    if start == |text| || IsLineEnd(text[start]) then start else LineEnd(text, start + 1)
  }

  /** Where the next line begins: a carriage return and a newline end one line. */
  function AfterLineEnd(text: string, end: nat): (r: nat)
    requires end < |text|
    ensures end < r <= |text|
  {
    if text[end] == '\r' && end + 1 < |text| && text[end + 1] == '\n' then end + 2 else end + 1
  }

  function SplitLines(text: string, start: nat): seq<string>
    requires start <= |text|
    decreases |text| - start
  {
    if start == |text| then []
    else if LineEnd(text, start) == |text| then [text[start..]]
    else
      var end := LineEnd(text, start);
      [text[start..end]] + SplitLines(text, AfterLineEnd(text, end))
  }

  const NO_GRAMMAR: Grammar := Grammar({}, map[])

  function OperationIn(g: Grammar, token: string): LoadedOperation {
    if token in g.operations then g.operations[token] else LoadedOperation(false, [])
  }

  function ClosedTokens(g: Grammar): set<string> {
    set m | m in g.modes && m.1 == "closed" :: m.0
  }

  /** A record of another kind, with the number of fields of that kind. */
  predicate IsOtherRecord(fields: seq<string>)
    requires fields != []
  {
    match |fields|
    case 2 => fields[0] in {"TERMINAL", "CANONICAL"}
    case 3 => fields[0] in {"QUERY_POLICY_SCOPE", "OPERAND_CONTEXT", "LEXICAL_VALUE", "BOUNDARY", "FIXED_VALUE"}
    case 4 => fields[0] == "PRESENTATION"
    case 5 => fields[0] == "DELEGATED"
    case 15 => fields[0] == "OPTION"
    case _ => false
  }

  /** One line of the document.  Records of other kinds leave the operations alone; a
      line that is no record is refused. */
  function LoadLine(g: Grammar, line: string): Option<Grammar> {
    var fields := Split(line, '\t');
    if fields[0] == "OPERATION" && |fields| == 3 then
      var token, mode := fields[1], fields[2];
      if token == "" || mode !in {"closed", "open"} || (token, mode) in g.modes then None
      else
        var existing := OperationIn(g, token);
        var announced := existing.(isOpen := existing.isOpen || mode == "open");
        Some(Grammar(g.modes + {(token, mode)}, g.operations[token := announced]))
    else
      match FormOf(line, ClosedTokens(g))
      case OtherRecord => if IsOtherRecord(fields) then Some(g) else None
      case Refused => None
      case FormRecord(token, form) =>
        var existing := OperationIn(g, token);
        Some(g.(operations := g.operations[token := existing.(forms := existing.forms + [form])]))
  }

  function LoadFrom(g: Grammar, lines: seq<string>): Option<Grammar>
    decreases |lines|
  {
    if lines == [] then Some(g)
    else
      var next := LoadLine(g, lines[0]);
      if next.None? then None else LoadFrom(next.value, lines[1..])
  }

  /** The grammar of a document, or nothing when one of its lines is refused. */
  function GrammarIn(text: string): Option<Grammar> {
    LoadFrom(NO_GRAMMAR, SplitLines(text, 0))
  }

  method ParseExportedGrammar(text: string) returns (g: Option<Grammar>)
    ensures g == GrammarIn(text)
  {
    var lines, modes := SplitLines(text, 0), {};
    var operations: map<string, LoadedOperation> := map[];
    for i := 0 to |lines|
      invariant GrammarIn(text) == LoadFrom(Grammar(modes, operations), lines[i..])
    {
      var fields := Split(lines[i], '\t');
      if fields[0] == "OPERATION" && |fields| == 3 {
        var token, mode := fields[1], fields[2];
        if token == "" || mode !in {"closed", "open"} || (token, mode) in modes {
          return None;
        }
        var existing := if token in operations then operations[token] else LoadedOperation(false, []);
        modes := modes + {(token, mode)};
        operations := operations[token := existing.(isOpen := existing.isOpen || mode == "open")];
      } else {
        var record := ParseFormRecord(lines[i], ClosedTokens(Grammar(modes, operations)));
        if record.Refused? || (record.OtherRecord? && !IsOtherRecord(fields)) {
          return None;
        }
        if record.FormRecord? {
          var existing := if record.token in operations then operations[record.token] else LoadedOperation(false, []);
          operations := operations[record.token := existing.(forms := existing.forms + [record.form])];
        }
      }
    }
    g := Some(Grammar(modes, operations));
  }
}
