/**
 The loader's reading of a document, told from the characters of each line: which
 integers, lists, records and line ends it knows, and what each record adds.
 */
module LoaderConditions {
  import opened Wrappers
  import opened TextLists
  import opened CompletionLoader

  ghost predicate AreFields(text: string, separator: char, fields: seq<string>) {
    |fields| > 0 && text == Join(fields, separator) && forall field | field in fields :: separator !in field
  }

  lemma FieldsMean(text: string, separator: char, fields: seq<string>)
    ensures AreFields(text, separator, fields) <==> fields == Split(text, separator)
  {
    JoinSplit(text, separator);
    if AreFields(text, separator, fields) {
      SplitJoin(fields, separator);
    }
  }

  // ----- integers -----

  ghost predicate AreBlanks(s: string) {
    forall i | 0 <= i < |s| :: 9 <= s[i] as int <= 13 || 28 <= s[i] as int <= 32
  }

  ghost predicate IsDigitCode(code: int) {
    48 <= code <= 57
  }

  /** Digits, with underscores only between two of them. */
  ghost predicate AreGrouped(s: string) {
    && |s| > 0
    && forall i | 0 <= i < |s| ::
         || IsDigitCode(s[i] as int)
         || (s[i] as int == 95 && 0 < i < |s| - 1
             && IsDigitCode(s[i - 1] as int) && IsDigitCode(s[i + 1] as int))
  }

  ghost function ValueOf(s: string): int {
    if s == "" then 0
    else
      var init, last := s[..|s| - 1], s[|s| - 1] as int;
      if last == 95 then ValueOf(init) else 10 * ValueOf(init) + last - 48
  }

  /** Nothing, a plus or a minus. */
  ghost predicate IsSign(sign: string) {
    |sign| == 0 || (|sign| == 1 && (sign[0] as int == 43 || sign[0] as int == 45))
  }

  ghost predicate IsMinus(sign: string) {
    |sign| == 1 && sign[0] as int == 45
  }

  /** Blanks, perhaps a sign, grouped digits and blanks again. */
  ghost predicate IsIntegerOf(s: string, lead: string, sign: string, digits: string, trail: string, value: int) {
    && s == lead + sign + digits + trail && AreBlanks(lead) && AreBlanks(trail)
    && IsSign(sign) && AreGrouped(digits)
    && value == if IsMinus(sign) then -ValueOf(digits) else ValueOf(digits)
  }

  lemma SpaceMeans(c: char)
    ensures IsSpace(c) <==> 9 <= c as int <= 13 || 28 <= c as int <= 32
  {
  }

  lemma GroupedMeans(s: string)
    ensures IsGroupedDigits(s) <==> AreGrouped(s)
  {
    if IsGroupedDigits(s) {
      forall i | 0 <= i < |s| && !IsDigit(s[i])
        ensures 0 < i < |s| - 1 && IsDigit(s[i - 1]) && IsDigit(s[i + 1])
      {
      }
    }
    if AreGrouped(s) {
      assert IsDigitCode(s[0] as int) && IsDigitCode(s[|s| - 1] as int);
    }
  }

  lemma {:induction false} ValueMeans(s: string)
    requires forall i | 0 <= i < |s| :: IsDigit(s[i]) || s[i] == '_'
    ensures DecimalValue(OnlyDigits(s)) == ValueOf(s)
  {
    if s != "" {
      var init, last := s[..|s| - 1], s[|s| - 1];
      ValueMeans(init);
      if IsDigit(last) {
        assert OnlyDigits(s) == OnlyDigits(init) + [last];
        DecimalValueMeans(OnlyDigits(init), last);
      } else {
        assert OnlyDigits(init) + [] == OnlyDigits(init) && last as int == 95;
      }
    }
  }

  lemma {:induction false} TrimStartIs(lead: string, rest: string)
    requires AreBlanks(lead) && (rest == "" || !IsSpace(rest[0]))
    ensures TrimStart(lead + rest) == rest
  {
    if lead == "" {
      assert lead + rest == rest;
    } else {
      SpaceMeans(lead[0]);
      assert (lead + rest)[1..] == lead[1..] + rest;
      TrimStartIs(lead[1..], rest);
    }
  }

  lemma {:induction false} TrimEndIs(rest: string, trail: string)
    requires AreBlanks(trail) && (rest == "" || !IsSpace(rest[|rest| - 1]))
    ensures TrimEnd(rest + trail) == rest
  {
    if trail == "" {
      assert rest + trail == rest;
    } else {
      SpaceMeans(trail[|trail| - 1]);
      assert (rest + trail)[..|rest + trail| - 1] == rest + trail[..|trail| - 1];
      TrimEndIs(rest, trail[..|trail| - 1]);
    }
  }

  lemma {:induction false} TrimStartLeaves(s: string) returns (lead: string)
    ensures s == lead + TrimStart(s) && AreBlanks(lead)
  {
    lead := "";
    if s != "" && IsSpace(s[0]) {
      SpaceMeans(s[0]);
      var rest := TrimStartLeaves(s[1..]);
      lead := [s[0]] + rest;
      assert s == [s[0]] + s[1..];
    }
  }

  lemma {:induction false} TrimEndLeaves(s: string) returns (trail: string)
    ensures s == TrimEnd(s) + trail && AreBlanks(trail)
  {
    trail := "";
    if s != "" && IsSpace(s[|s| - 1]) {
      SpaceMeans(s[|s| - 1]);
      var rest := TrimEndLeaves(s[..|s| - 1]);
      trail := rest + [s[|s| - 1]];
      assert s == s[..|s| - 1] + [s[|s| - 1]];
    }
  }

  lemma GroupedIsPlain(digits: string)
    requires AreGrouped(digits)
    ensures !IsSpace(digits[0]) && !IsSpace(digits[|digits| - 1]) && digits[0] != '+' && digits[0] != '-'
    ensures IsGroupedDigits(digits) && DecimalValue(OnlyDigits(digits)) == ValueOf(digits)
  {
    GroupedMeans(digits);
    SpaceMeans(digits[0]);
    SpaceMeans(digits[|digits| - 1]);
    ValueMeans(digits);
  }

  lemma TrimsTo(lead: string, text: string, trail: string)
    requires AreBlanks(lead) && AreBlanks(trail) && text != ""
    requires !IsSpace(text[0]) && !IsSpace(text[|text| - 1])
    ensures TrimEnd(TrimStart(lead + text + trail)) == text
  {
    assert lead + text + trail == lead + (text + trail) && (text + trail)[0] == text[0];
    TrimStartIs(lead, text + trail);
    TrimEndIs(text, trail);
  }

  /** The integer that a text without blanks around it is. */
  ghost function Signed(text: string): Option<int> {
    var isSigned := text != "" && (text[0] == '+' || text[0] == '-');
    var digits := if isSigned then text[1..] else text;
    if !IsGroupedDigits(digits) then None
    else
      var value: int := DecimalValue(OnlyDigits(digits));
      Some(if isSigned && text[0] == '-' then -value else value)
  }

  lemma ParsedIsSigned(s: string)
    ensures ParseInt(s) == Signed(TrimEnd(TrimStart(s)))
  {
  }

  ghost predicate HasSign(text: string, sign: string, digits: string) {
    && text == sign + digits && IsSign(sign)
    && digits == (if text != "" && (text[0] == '+' || text[0] == '-') then text[1..] else text)
  }

  lemma SignedMeans(text: string, sign: string, digits: string)
    requires HasSign(text, sign, digits)
    ensures Signed(text).Some? <==> AreGrouped(digits)
    ensures Signed(text).Some? ==> Signed(text).value == if IsMinus(sign) then -ValueOf(digits) else ValueOf(digits)
  {
    GroupedMeans(digits);
    if IsGroupedDigits(digits) {
      ValueMeans(digits);
    }
    SignShows(text, sign, digits);
  }

  lemma SignShows(text: string, sign: string, digits: string)
    requires HasSign(text, sign, digits)
    ensures IsMinus(sign) <==> text != "" && text[0] == '-'
  {
    if |sign| == 0 {
      assert text == digits;
    } else {
      assert text[0] == sign[0];
    }
  }

  lemma GroupedHasSign(sign: string, digits: string)
    requires IsSign(sign) && AreGrouped(digits)
    ensures HasSign(sign + digits, sign, digits)
  {
    GroupedIsPlain(digits);
    if |sign| == 0 {
      assert sign + digits == digits;
    } else {
      assert (sign + digits)[0] == sign[0] && (sign + digits)[1..] == digits;
    }
  }

  lemma Recombine(lead: string, text: string, sign: string, digits: string, trail: string)
    requires text == sign + digits
    ensures lead + text + trail == lead + sign + digits + trail
  {
  }

  lemma SignedIsPlain(sign: string, digits: string)
    requires IsSign(sign) && AreGrouped(digits)
    ensures var text := sign + digits; text != "" && !IsSpace(text[0]) && !IsSpace(text[|text| - 1])
  {
    GroupedIsPlain(digits);
    SpaceMeans('+');
    SpaceMeans('-');
  }

  ghost predicate IsTrimmed(s: string, text: string) {
    text == TrimEnd(TrimStart(s))
  }

  ghost predicate HasValue(text: string, value: int) {
    Signed(text) == Some(value)
  }

  lemma TrimmedParses(s: string, text: string, value: int)
    requires IsTrimmed(s, text) && HasValue(text, value)
    ensures ParseInt(s) == Some(value)
  {
    ParsedIsSigned(s);
  }

  lemma AllTrimsTo(s: string, lead: string, sign: string, digits: string, trail: string, value: int)
    requires IsIntegerOf(s, lead, sign, digits, trail, value)
    ensures IsTrimmed(s, sign + digits)
  {
    var text := sign + digits;
    SignedIsPlain(sign, digits);
    Recombine(lead, text, sign, digits, trail);
    TrimsTo(lead, text, trail);
  }

  lemma SignedIs(s: string, lead: string, sign: string, digits: string, trail: string, value: int)
    requires IsIntegerOf(s, lead, sign, digits, trail, value)
    ensures HasValue(sign + digits, value)
  {
    GroupedHasSign(sign, digits);
    SignedMeans(sign + digits, sign, digits);
  }

  lemma IntegerParses(s: string, lead: string, sign: string, digits: string, trail: string, value: int)
    requires IsIntegerOf(s, lead, sign, digits, trail, value)
    ensures ParseInt(s) == Some(value)
  {
    AllTrimsTo(s, lead, sign, digits, trail, value);
    SignedIs(s, lead, sign, digits, trail, value);
    TrimmedParses(s, sign + digits, value);
  }

  lemma SignComesOff(text: string) returns (sign: string, digits: string)
    ensures HasSign(text, sign, digits)
  {
    if text != "" && (text[0] == '+' || text[0] == '-') {
      sign, digits := [text[0]], text[1..];
    } else {
      sign, digits := "", text;
    }
  }

  lemma TrimmedIs(s: string) returns (lead: string, trail: string)
    ensures s == lead + TrimEnd(TrimStart(s)) + trail && AreBlanks(lead) && AreBlanks(trail)
  {
    lead := TrimStartLeaves(s);
    trail := TrimEndLeaves(TrimStart(s));
    assert lead + (TrimEnd(TrimStart(s)) + trail) == lead + TrimEnd(TrimStart(s)) + trail;
  }

  lemma ParsedIsInteger(s: string) returns (lead: string, sign: string, digits: string, trail: string)
    requires ParseInt(s).Some?
    ensures IsIntegerOf(s, lead, sign, digits, trail, ParseInt(s).value)
  {
    var text := TrimEnd(TrimStart(s));
    lead, trail := TrimmedIs(s);
    sign, digits := SignComesOff(text);
    ParsedIsSigned(s);
    SignedMeans(text, sign, digits);
    Recombine(lead, text, sign, digits, trail);
  }

  lemma IntegerMeans(s: string, value: int)
    ensures ParseInt(s) == Some(value) <==>
      exists lead, sign, digits, trail :: IsIntegerOf(s, lead, sign, digits, trail, value)
  {
    if ParseInt(s).Some? {
      var lead, sign, digits, trail := ParsedIsInteger(s);
      assert IsIntegerOf(s, lead, sign, digits, trail, ParseInt(s).value);
    }
    if lead, sign, digits, trail :| IsIntegerOf(s, lead, sign, digits, trail, value) {
      IntegerParses(s, lead, sign, digits, trail, value);
    }
  }

  // ----- lists -----

  /** Names between plus signs: known, different, and "none" only by itself. */
  lemma NameSetMeans(value: string, known: set<string>, names: seq<string>)
    ensures ParseNameSet(value, known) == Some(names) <==>
      && value != "" && AreFields(value, '+', names) && (forall name | name in names :: name in known)
      && (forall i, j | 0 <= i < j < |names| :: names[i] != names[j])
      && ("none" in names ==> |names| == 1)
  {
    FieldsMean(value, '+', names);
    if value != "" {
      assert AreKnown(Split(value, '+'), known) <==> forall name | name in Split(value, '+') :: name in known;
    }
  }

  /** Items between commas; no item is empty, and an empty list is an empty text. */
  lemma ItemsMean(value: string, items: seq<string>)
    ensures ParseCommaList(value) == Some(items) <==>
      if |items| == 0 then value == "" else value != "" && AreFields(value, ',', items) && "" !in items
  {
    FieldsMean(value, ',', items);
    if value != "" {
      var all := Split(value, ',');
      assert (exists i | 0 <= i < |all| :: all[i] == "") <==> "" in all;
    }
  }

  ghost predicate Parse<T(!new)>(items: seq<string>, isItem: (string, T) -> bool, parsed: seq<T>) {
    |parsed| == |items| && forall i | 0 <= i < |items| :: isItem(items[i], parsed[i])
  }

  lemma AllParse<T(!new)>(
    items: seq<string>, parse: string -> Option<T>, isItem: (string, T) -> bool, parsed: seq<T>)
    requires forall s, x :: parse(s) == Some(x) <==> isItem(s, x)
    ensures ParseAll(items, parse) == Some(parsed) <==> Parse(items, isItem, parsed)
  {
    if Parse(items, isItem, parsed) {
      forall i | 0 <= i < |items| ensures parse(items[i]) == Some(parsed[i]) {
        assert isItem(items[i], parsed[i]);
      }
      ParsedPointwise(items, parse, parsed);
    }
    if ParseAll(items, parse) == Some(parsed) {
      PointwiseParsed(items, parse, parsed);
    }
  }

  lemma {:induction false} ParsedPointwise<T(!new)>(
    items: seq<string>, parse: string -> Option<T>, parsed: seq<T>)
    requires |parsed| == |items| && forall i | 0 <= i < |items| :: parse(items[i]) == Some(parsed[i])
    ensures ParseAll(items, parse) == Some(parsed)
  {
    if items != [] {
      var n := |items| - 1;
      ParsedPointwise(items[..n], parse, parsed[..n]);
      assert parsed == parsed[..n] + [parsed[n]];
    }
  }

  lemma {:induction false} PointwiseParsed<T(!new)>(
    items: seq<string>, parse: string -> Option<T>, parsed: seq<T>)
    requires ParseAll(items, parse) == Some(parsed)
    ensures |parsed| == |items| && forall i | 0 <= i < |items| :: parse(items[i]) == Some(parsed[i])
  {
    if items != [] {
      var n := |items| - 1;
      PointwiseParsed(items[..n], parse, parsed[..|parsed| - 1]);
      forall i | 0 <= i < |items| ensures parse(items[i]) == Some(parsed[i]) {
        assert i < n ==> items[..n][i] == items[i];
      }
    }
  }

  // ----- records -----

  /** Kind, least and most number; a star for no limit. */
  ghost predicate IsTermOf(fields: seq<string>, t: LoadedTerm) {
    && |fields| == 3 && fields[0] == t.kind
    && t.kind in {"none", "package", "directory", "patch-directory", "patch-file", "package-base", "query",
                  "source-preference-item", "environment-assignment", "delegated-pacman-argument"}
    && ParseInt(fields[1]) == Some(t.minCount)
    && (fields[2] == "*" ==> t.maxCount == None)
    && (fields[2] != "*" ==>
          t.maxCount.Some? && ParseInt(fields[2]) == Some(t.maxCount.value) && t.minCount <= t.maxCount.value)
  }

  ghost function IsTerm(): (string, LoadedTerm) -> bool {
    (text: string, t: LoadedTerm) => exists fields :: AreFields(text, ':', fields) && IsTermOf(fields, t)
  }

  lemma TermMeans(text: string, t: LoadedTerm)
    ensures TermOf(text) == Some(t) <==> IsTerm()(text, t)
  {
    var fields := Split(text, ':');
    FieldsMean(text, ':', fields);
    forall others | AreFields(text, ':', others) ensures others == fields {
      FieldsMean(text, ':', others);
    }
    assert TermOf(text) == Some(t) <==> IsTermOf(fields, t);
  }

  /** Seven fields, each of its words or a number. */
  ghost predicate IsRelationOf(fields: seq<string>, r: LoadedRelation) {
    && |fields| == 7 && ParseInt(fields[0]) == Some(r.identity)
    && fields[1] == r.requirement && r.requirement in {"optional", "required"}
    && fields[2] == r.occurrence
    && r.occurrence in {"once", "repeat-idempotent", "repeat-same-value", "delegated"}
    && fields[3] == r.publicSyntax && r.publicSyntax in {"hidden", "optional", "required"}
    && ParseNameSet(
         fields[4],
         {"none", "moguet-control", "upstream-argument", "final-install-semantic", "parser-boundary"})
       == Some(r.effects)
    && ParseNameSet(fields[5], {"none", "pacman", "makepkg", "final-install-pacman"}) == Some(r.targets)
    && fields[6] == r.forwarding && r.forwarding in {"none", "preserve-all", "consolidate-single"}
  }

  ghost function IsRelation(): (string, LoadedRelation) -> bool {
    (text: string, r: LoadedRelation) => exists fields :: AreFields(text, ':', fields) && IsRelationOf(fields, r)
  }

  lemma RelationMeans(text: string, r: LoadedRelation)
    ensures RelationOf(text) == Some(r) <==> IsRelation()(text, r)
  {
    var fields := Split(text, ':');
    FieldsMean(text, ':', fields);
    forall others | AreFields(text, ':', others) ensures others == fields {
      FieldsMean(text, ':', others);
    }
    assert RelationOf(text) == Some(r) <==> IsRelationOf(fields, r);
  }

  ghost predicate ListsItems<T(!new)>(value: string, isItem: (string, T) -> bool, parsed: seq<T>) {
    if |parsed| == 0 then value == ""
    else exists items :: AreFields(value, ',', items) && "" !in items && Parse(items, isItem, parsed)
  }

  /** A list is read item by item, in its order. */
  lemma ListMeans<T(!new)>(
    value: string, parse: string -> Option<T>, isItem: (string, T) -> bool, parsed: seq<T>)
    requires forall s, x :: parse(s) == Some(x) <==> isItem(s, x)
    ensures ParseCommaList(value).Some? && ParseAll(ParseCommaList(value).value, parse) == Some(parsed) <==>
      ListsItems(value, isItem, parsed)
  {
    if ParseCommaList(value).Some? {
      var items := ParseCommaList(value).value;
      ItemsMean(value, items);
      AllParse(items, parse, isItem, parsed);
    }
    if |parsed| == 0 && value == "" {
      ItemsMean(value, []);
      AllParse([], parse, isItem, parsed);
    } else if |parsed| > 0 && ListsItems(value, isItem, parsed) {
      var items :| AreFields(value, ',', items) && "" !in items && Parse(items, isItem, parsed);
      assert items[0] in items;
      FieldsMean(value, ',', items);
      NotEmpty(value, items);
      ItemsMean(value, items);
      AllParse(items, parse, isItem, parsed);
    }
  }

  lemma NotEmpty(value: string, items: seq<string>)
    requires AreFields(value, ',', items) && "" !in items
    ensures value != ""
  {
    assert items[0] in items;
  }

  lemma TermsMean(value: string, terms: seq<LoadedTerm>)
    ensures TermsOf(value) == Some(terms) <==> ListsItems(value, IsTerm(), terms)
  {
    forall s, x ensures TermOf(s) == Some(x) <==> IsTerm()(s, x) {
      TermMeans(s, x);
    }
    ListMeans(value, TermOf, IsTerm(), terms);
  }

  lemma RelationsMean(value: string, relations: seq<LoadedRelation>)
    ensures RelationsOf(value) == Some(relations) <==> ListsItems(value, IsRelation(), relations)
  {
    forall s, x ensures RelationOf(s) == Some(x) <==> IsRelation()(s, x) {
      RelationMeans(s, x);
    }
    ListMeans(value, RelationOf, IsRelation(), relations);
  }

  // ----- lines of a document -----

  /** A form of a closed operation. */
  ghost predicate IsFormOf(fields: seq<string>, closed: set<string>, token: string, form: LoadedForm) {
    && |fields| == 8 && fields[0] == "FORM" && fields[1] == token && token in closed
    && fields[2] == form.syntax && fields[3] == form.policy && fields[4] == form.ordering
    && ListsItems(fields[5], IsTerm(), form.terms) && ListsItems(fields[6], IsRelation(), form.relations)
    && fields[7] == form.tail && form.tail in {"none", "repository-only"}
  }

  lemma FormMeans(line: string, closed: set<string>, token: string, form: LoadedForm)
    ensures FormOf(line, closed) == FormRecord(token, form) <==>
      exists fields :: AreFields(line, '\t', fields) && IsFormOf(fields, closed, token, form)
  {
    var fields := Split(line, '\t');
    FieldsMean(line, '\t', fields);
    forall others | AreFields(line, '\t', others) ensures others == fields {
      FieldsMean(line, '\t', others);
    }
    if |fields| == 8 {
      TermsMean(fields[5], form.terms);
      RelationsMean(fields[6], form.relations);
    }
  }

  ghost function FormsOf(g: Grammar, token: string): seq<LoadedForm> {
    if token in g.operations then g.operations[token].forms else []
  }

  ghost predicate IsOpenIn(g: Grammar, token: string) {
    token in g.operations && g.operations[token].isOpen
  }

  /** The operation is announced, for the first time in this mode. */
  ghost predicate Announces(fields: seq<string>, before: Grammar, after: Grammar) {
    && |fields| == 3 && fields[0] == "OPERATION" && |fields[1]| > 0 && (fields[2] == "closed" || fields[2] == "open")
    && (fields[1], fields[2]) !in before.modes && after.modes == before.modes + {(fields[1], fields[2])}
    && after.operations == before.operations[fields[1] :=
         LoadedOperation(fields[2] == "open" || IsOpenIn(before, fields[1]), FormsOf(before, fields[1]))]
  }

  /** The form is added behind those of its operation, which has been closed. */
  ghost predicate AddsThisForm(
    fields: seq<string>, before: Grammar, after: Grammar, token: string, form: LoadedForm)
  {
    && IsFormOf(fields, set m | m in before.modes && m.1 == "closed" :: m.0, token, form)
    && after.modes == before.modes
    && after.operations == before.operations[token :=
         LoadedOperation(IsOpenIn(before, token), FormsOf(before, token) + [form])]
  }

  ghost predicate AddsForm(fields: seq<string>, before: Grammar, after: Grammar) {
    exists token, form :: AddsThisForm(fields, before, after, token, form)
  }

  /** A record of another kind, which adds nothing. */
  ghost predicate IsPassedOver(fields: seq<string>)
    requires |fields| > 0
  {
    (fields[0], |fields|) in {
      ("TERMINAL", 2), ("CANONICAL", 2), ("QUERY_POLICY_SCOPE", 3), ("OPERAND_CONTEXT", 3), ("LEXICAL_VALUE", 3),
      ("BOUNDARY", 3), ("FIXED_VALUE", 3), ("PRESENTATION", 4), ("DELEGATED", 5), ("OPTION", 15)}
  }

  lemma KindsDiffer(fields: seq<string>)
    requires |fields| > 0
    ensures IsOtherRecord(fields) <==> IsPassedOver(fields)
    ensures IsPassedOver(fields) ==> fields[0] != "OPERATION" && fields[0] != "FORM"
  {
  }

  /** What one line makes of the grammar; any other line is refused. */
  lemma LineMeans(before: Grammar, line: string, after: Grammar)
    ensures LoadLine(before, line) == Some(after) <==>
      exists fields :: AreFields(line, '\t', fields)
        && (Announces(fields, before, after) || AddsForm(fields, before, after)
            || (IsPassedOver(fields) && after == before))
  {
    var fields := Split(line, '\t');
    FieldsMean(line, '\t', fields);
    forall others | AreFields(line, '\t', others) ensures others == fields {
      FieldsMean(line, '\t', others);
    }
    FieldsLoad(before, line, fields, after);
  }

  lemma FieldsAreForm(line: string, fields: seq<string>, closed: set<string>, token: string, form: LoadedForm)
    requires AreFields(line, '\t', fields)
    ensures FormOf(line, closed) == FormRecord(token, form) <==> IsFormOf(fields, closed, token, form)
  {
    FieldsMean(line, '\t', fields);
    FormMeans(line, closed, token, form);
    forall others | AreFields(line, '\t', others) ensures others == fields {
      FieldsMean(line, '\t', others);
    }
  }

  ghost function WithForm(before: Grammar, token: string, form: LoadedForm): Grammar {
    before.(operations := before.operations[token :=
      LoadedOperation(IsOpenIn(before, token), FormsOf(before, token) + [form])])
  }

  /** What the record of a form adds. */
  lemma FormRecordLoads(before: Grammar, line: string)
    requires Split(line, '\t')[0] != "OPERATION"
    ensures var record := FormOf(line, ClosedTokens(before));
      LoadLine(before, line) ==
        match record
        case OtherRecord => if IsOtherRecord(Split(line, '\t')) then Some(before) else None
        case Refused => None
        case FormRecord(token, form) => Some(WithForm(before, token, form))
  {
  }

  lemma AddedMeans(fields: seq<string>, before: Grammar, after: Grammar, token: string, form: LoadedForm)
    ensures AddsThisForm(fields, before, after, token, form) <==>
      IsFormOf(fields, ClosedTokens(before), token, form) && after == WithForm(before, token, form)
  {
  }

  lemma FormLoads(before: Grammar, line: string, fields: seq<string>, after: Grammar)
    requires AreFields(line, '\t', fields) && fields[0] != "OPERATION"
    ensures FormOf(line, ClosedTokens(before)).FormRecord? && LoadLine(before, line) == Some(after) <==>
      AddsForm(fields, before, after)
  {
    var record := FormOf(line, ClosedTokens(before));
    FieldsMean(line, '\t', fields);
    FormRecordLoads(before, line);
    if record.FormRecord? {
      AddedMeans(fields, before, after, record.token, record.form);
      FieldsAreForm(line, fields, ClosedTokens(before), record.token, record.form);
    }
    if token, form :| AddsThisForm(fields, before, after, token, form) {
      AddedMeans(fields, before, after, token, form);
      FieldsAreForm(line, fields, ClosedTokens(before), token, form);
    }
  }

  lemma AnnouncementLoads(before: Grammar, line: string, fields: seq<string>, after: Grammar)
    requires AreFields(line, '\t', fields) && fields[0] == "OPERATION"
    ensures LoadLine(before, line) == Some(after) <==> Announces(fields, before, after)
  {
    FieldsMean(line, '\t', fields);
    if LoadLine(before, line).Some? {
      assert Announces(fields, before, LoadLine(before, line).value);
    }
  }

  lemma FieldsLoad(before: Grammar, line: string, fields: seq<string>, after: Grammar)
    requires AreFields(line, '\t', fields)
    ensures LoadLine(before, line) == Some(after) <==>
      Announces(fields, before, after) || AddsForm(fields, before, after)
      || (IsPassedOver(fields) && after == before)
  {
    FieldsMean(line, '\t', fields);
    KindsDiffer(fields);
    if fields[0] == "OPERATION" {
      AnnouncementLoads(before, line, fields, after);
    } else {
      FormLoads(before, line, fields, after);
    }
  }

  // ----- the document -----

  ghost predicate EndsLine(code: int) {
    10 <= code <= 13 || 28 <= code <= 30 || code in {133, 8232, 8233}
  }

  lemma LineEndMeans(c: char)
    ensures IsLineEnd(c) <==> EndsLine(c as int)
  {
  }

  lemma {:induction false} LineEndAt(text: string, start: nat, end: nat)
    requires start <= end <= |text| && (end < |text| ==> IsLineEnd(text[end]))
    requires forall i | start <= i < end :: !IsLineEnd(text[i])
    ensures LineEnd(text, start) == end
    decreases end - start
  {
    if start < end {
      LineEndAt(text, start + 1, end);
    }
  }

  /** A line goes up to the next character that ends lines; a carriage return and the
      newline behind it end one line together. */
  lemma NextLineMeans(text: string, start: nat, end: nat)
    requires start <= end < |text| && EndsLine(text[end] as int)
    requires forall i | start <= i < end :: !EndsLine(text[i] as int)
    ensures var isPair := text[end] as int == 13 && end + 1 < |text| && text[end + 1] as int == 10;
      SplitLines(text, start) == [text[start..end]] + SplitLines(text, if isPair then end + 2 else end + 1)
  {
    LineEndMeans(text[end]);
    forall i | start <= i < end ensures !IsLineEnd(text[i]) {
      LineEndMeans(text[i]);
    }
    LineEndAt(text, start, end);
  }

  /** What is behind the last line end is a line unless it is empty. */
  lemma LastLineMeans(text: string, start: nat)
    requires start <= |text| && forall i | start <= i < |text| :: !EndsLine(text[i] as int)
    ensures SplitLines(text, start) == if start == |text| then [] else [text[start..]]
  {
    forall i | start <= i < |text| ensures !IsLineEnd(text[i]) {
      LineEndMeans(text[i]);
    }
    LineEndAt(text, start, |text|);
  }

  /** The grammars after each line, from the empty one on. */
  ghost predicate IsLoading(lines: seq<string>, steps: seq<Grammar>) {
    && |steps| == |lines| + 1
    && forall i | 0 <= i < |lines| :: LoadLine(steps[i], lines[i]) == Some(steps[i + 1])
  }

  /** Some steps load the lines and come to the grammar. */
  ghost predicate Loads(g: Grammar, lines: seq<string>, last: Grammar) {
    exists steps :: IsLoading(lines, steps) && steps[0] == g && steps[|lines|] == last
  }

  lemma NothingLoads(g: Grammar, last: Grammar)
    ensures Loads(g, [], last) <==> last == g
  {
    assert IsLoading([], [g]);
  }

  lemma FirstLoads(g: Grammar, lines: seq<string>, last: Grammar)
    requires lines != []
    ensures Loads(g, lines, last) <==>
      LoadLine(g, lines[0]).Some? && Loads(LoadLine(g, lines[0]).value, lines[1..], last)
  {
    var next := LoadLine(g, lines[0]);
    if next.Some? && Loads(next.value, lines[1..], last) {
      var rest :| IsLoading(lines[1..], rest) && rest[0] == next.value && rest[|lines| - 1] == last;
      LoadingStarts(g, lines, rest);
      assert ([g] + rest)[|lines|] == last;
    }
    if Loads(g, lines, last) {
      var steps :| IsLoading(lines, steps) && steps[0] == g && steps[|lines|] == last;
      LoadingGoesOn(lines, steps);
    }
  }

  lemma {:induction false} LoadingMeans(g: Grammar, lines: seq<string>, last: Grammar)
    ensures LoadFrom(g, lines) == Some(last) <==> Loads(g, lines, last)
    decreases |lines|
  {
    if lines == [] {
      NothingLoads(g, last);
    } else {
      FirstLoads(g, lines, last);
      if LoadLine(g, lines[0]).Some? {
        LoadingMeans(LoadLine(g, lines[0]).value, lines[1..], last);
      }
    }
  }

  lemma LoadingStarts(g: Grammar, lines: seq<string>, rest: seq<Grammar>)
    requires lines != [] && IsLoading(lines[1..], rest) && LoadLine(g, lines[0]) == Some(rest[0])
    ensures IsLoading(lines, [g] + rest)
  {
    var steps := [g] + rest;
    forall i | 0 <= i < |lines| ensures LoadLine(steps[i], lines[i]) == Some(steps[i + 1]) {
      if i > 0 {
        assert lines[i] == lines[1..][i - 1] && steps[i] == rest[i - 1] && steps[i + 1] == rest[i];
      }
    }
  }

  lemma LoadingGoesOn(lines: seq<string>, steps: seq<Grammar>)
    requires lines != [] && IsLoading(lines, steps)
    ensures LoadLine(steps[0], lines[0]) == Some(steps[1]) && IsLoading(lines[1..], steps[1..])
  {
    forall i | 0 <= i < |lines| - 1
      ensures LoadLine(steps[1..][i], lines[1..][i]) == Some(steps[1..][i + 1])
    {
      assert LoadLine(steps[i + 1], lines[i + 1]) == Some(steps[i + 2]);
    }
  }

  ghost predicate IsEmpty(g: Grammar) {
    |g.modes| == 0 && |g.operations| == 0
  }

  /** A document is loaded line by line into a grammar that is empty at first. */
  lemma DocumentMeans(text: string, g: Grammar)
    ensures GrammarIn(text) == Some(g) <==>
      exists steps ::
        IsLoading(SplitLines(text, 0), steps) && IsEmpty(steps[0]) && steps[|SplitLines(text, 0)|] == g
  {
    var lines := SplitLines(text, 0);
    LoadingMeans(NO_GRAMMAR, lines, g);
    assert IsEmpty(NO_GRAMMAR);
    if steps :| IsLoading(lines, steps) && IsEmpty(steps[0]) && steps[|lines|] == g {
      assert steps[0] == NO_GRAMMAR;
    }
  }
}
