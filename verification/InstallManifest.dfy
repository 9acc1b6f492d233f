/** The manifest uninstaller's paths: canonical absolute paths, the manifest that
    lists them, and the install roots they must lie under. */
module InstallManifest {
  import opened Wrappers
  import opened TextLists
  import opened Paths

  const MAX_MANIFEST_ENTRIES: nat := 4096

  datatype ParsedPath = ParsedPath(text: string, components: seq<string>)

  function ComponentsOf(path: string): seq<string> {
    if |path| <= 1 then [] else Pieces(path, '/', 1)
  }

  predicate IsCanonical(path: string) {
    path != "" && path[0] == '/' && AreComponents(ComponentsOf(path))
  }

  function PathOf(path: string, allowRoot: bool): Option<ParsedPath> {
    if IsCanonical(path) && (allowRoot || path != "/") then Some(ParsedPath(path, ComponentsOf(path))) else None
  }

  // ----- canonical paths are exactly the texts of component lists -----

  lemma CanonicalText(components: seq<string>)
    requires AreComponents(components)
    ensures IsCanonical(PathText(components)) && ComponentsOf(PathText(components)) == components
  {
    var text := PathText(components);
    if components != [] {
      ComponentsFree(components);
      PiecesOfJoin(text, 1, components, '/');
      assert IsComponent(components[0]);
    }
  }

  lemma TextCanonical(path: string)
    requires IsCanonical(path)
    ensures PathText(ComponentsOf(path)) == path
  {
    if |path| > 1 {
      JoinPieces(path, '/', 1);
      assert path == "/" + path[1..];
    }
  }

  /** A text is accepted exactly when it is "/" followed by proper components joined
      with slashes, and then those components are unique. */
  lemma AcceptsExactlyCanonical(path: string, allowRoot: bool)
    ensures PathOf(path, allowRoot).Some? <==>
      exists components :: AreComponents(components) && PathText(components) == path && (allowRoot || components != [])
    ensures forall components ::
      AreComponents(components) && PathText(components) == path && (allowRoot || components != []) ==>
      PathOf(path, allowRoot) == Some(ParsedPath(path, components))
  {
    if IsCanonical(path) {
      TextCanonical(path);
    }
    forall components | AreComponents(components) && PathText(components) == path && (allowRoot || components != [])
      ensures PathOf(path, allowRoot) == Some(ParsedPath(path, components))
    {
      CanonicalText(components);
      if components != [] {
        assert IsComponent(components[0]);
      }
    }
  }

  // ----- parsing a path -----

  lemma {:induction false} LastPieceEmpty(text: string, c: char, start: nat)
    requires start < |text| && text[|text| - 1] == c
    ensures var pieces := Pieces(text, c, start); pieces[|pieces| - 1] == ""
    decreases |text| - start
  {
    var end := Find(text, c, start);
    FindFinds(text, c, start, |text| - 1);
    if end + 1 < |text| {
      LastPieceEmpty(text, c, end + 1);
    }
  }

  lemma {:induction false} PieceHolding(text: string, c: char, start: nat, at: nat)
    requires start <= at < |text| && text[at] != c
    ensures exists i | 0 <= i < |Pieces(text, c, start)| :: text[at] in Pieces(text, c, start)[i]
    decreases |text| - start
  {
    var end, pieces := Find(text, c, start), Pieces(text, c, start);
    FindStops(text, c, start);
    if at < end {
      assert text[start..end][at - start] in pieces[0];
    } else {
      PieceHolding(text, c, end + 1, at);
      var i :| 0 <= i < |Pieces(text, c, end + 1)| && text[at] in Pieces(text, c, end + 1)[i];
      assert pieces[i + 1] == Pieces(text, c, end + 1)[i];
    }
  }

  lemma NulIsNotCanonical(path: string)
    requires path != "" && path[0] == '/' && '\0' in path
    ensures !IsCanonical(path)
  {
    var at :| 0 <= at < |path| && path[at] == '\0';
    PieceHolding(path, '/', 1, at);
    var i :| 0 <= i < |ComponentsOf(path)| && '\0' in ComponentsOf(path)[i];
    assert !IsComponent(ComponentsOf(path)[i]);
  }

  lemma TrailingSlashIsNotCanonical(path: string)
    requires |path| > 1 && path[|path| - 1] == '/'
    ensures !IsCanonical(path)
  {
    LastPieceEmpty(path, '/', 1);
    var parts := ComponentsOf(path);
    assert !IsComponent(parts[|parts| - 1]);
  }

  /** The components before `start` are found; the rest of the text holds the others. */
  ghost predicate Scanned(path: string, components: seq<string>, start: nat) {
    && 0 < start <= |path|
    && AreComponents(components)
    && ComponentsOf(path) == if start == |path| then components else components + Pieces(path, '/', start)
  }

  /** A piece between slashes of a text without NUL is a component unless it is
      empty or one of the dots. */
  lemma PieceIsPlain(path: string, start: nat, end: nat, component: string)
    requires start <= |path| && end == Find(path, '/', start) && component == path[start..end] && '\0' !in path
    ensures IsComponent(component) <==> component != "" && component != "." && component != ".."
  {
    FindStops(path, '/', start);
    forall k | 0 <= k < |component| ensures component[k] != '\0' {
      assert component[k] == path[start + k];
    }
  }

  lemma BadComponent(path: string, before: seq<string>, component: string)
    requires before + [component] <= ComponentsOf(path) && !IsComponent(component)
    ensures !IsCanonical(path)
  {
    assert ComponentsOf(path)[|before|] == component;
  }

  /** The piece at `start` is `part`, and `after` are the pieces behind it. */
  ghost predicate SplitsOff(path: string, start: nat, part: string, after: seq<string>) {
    start <= |path| && Pieces(path, '/', start) == [part] + after
  }

  ghost function PiecesBehind(path: string, end: nat): seq<string>
    requires end <= |path|
  {
    if end == |path| then [] else Pieces(path, '/', end + 1)
  }

  lemma PieceSplitsOff(path: string, start: nat, end: nat, part: string)
    requires start <= |path| && end == Find(path, '/', start) && part == path[start..end]
    ensures SplitsOff(path, start, part, PiecesBehind(path, end))
  {
  }

  lemma MiddlePart(all: seq<string>, before: seq<string>, rest: seq<string>, part: string, after: seq<string>)
    requires all == before + rest && rest == [part] + after
    ensures all == before + [part] + after && before + [part] <= all
  {
  }

  lemma MiddleComponent(path: string, before: seq<string>, start: nat, part: string, after: seq<string>)
    requires Scanned(path, before, start) && start < |path| && SplitsOff(path, start, part, after)
    ensures ComponentsOf(path) == before + [part] + after && before + [part] <= ComponentsOf(path)
  {
    MiddlePart(ComponentsOf(path), before, Pieces(path, '/', start), part, after);
  }

  lemma LastIsNoSlash(path: string, start: nat, end: nat)
    requires start < |path| && end == Find(path, '/', start) && path[|path| - 1] != '/'
    ensures end < |path| ==> end + 1 < |path|
  {
    FindStops(path, '/', start);
  }

  /** The next component found by the scan is the next one of the whole path. */
  lemma NextComponent(path: string, before: seq<string>, start: nat, end: nat, component: string)
    requires Scanned(path, before, start) && start < |path| && path[|path| - 1] != '/' && '\0' !in path
    requires end == Find(path, '/', start) && component == path[start..end]
    ensures !IsComponent(component) ==> !IsCanonical(path)
    ensures component != "" && component != "." && component != ".." ==>
      Scanned(path, before + [component], if end == |path| then end else end + 1)
  {
    PieceIsPlain(path, start, end, component);
    LastIsNoSlash(path, start, end);
    var after := PiecesBehind(path, end);
    PieceSplitsOff(path, start, end, component);
    MiddleComponent(path, before, start, component, after);
    if IsComponent(component) {
      ScannedMore(path, before, component, if end == |path| then end else end + 1, after);
    } else {
      BadComponent(path, before, component);
    }
  }

  lemma ScannedMore(path: string, before: seq<string>, component: string, next: nat, after: seq<string>)
    requires 0 < next <= |path| && AreComponents(before) && IsComponent(component)
    requires ComponentsOf(path) == before + [component] + after
    requires after == if next == |path| then [] else Pieces(path, '/', next)
    ensures Scanned(path, before + [component], next)
  {
    assert before + [component] + [] == before + [component];
  }

  lemma NothingScanned(path: string)
    requires path != ""
    ensures Scanned(path, [], 1)
  {
    if |path| > 1 {
      assert [] + Pieces(path, '/', 1) == ComponentsOf(path);
    }
  }

  /** The scan over the components of a path that has passed the first checks. */
  method ScanComponents(path: string) returns (components: Option<seq<string>>)
    requires path != "" && path[0] == '/' && (|path| > 1 ==> path[|path| - 1] != '/') && '\0' !in path
    ensures components == if IsCanonical(path) then Some(ComponentsOf(path)) else None
  {
    var found: seq<string> := [];
    var componentStart := 1;
    NothingScanned(path);
    while componentStart < |path|
      invariant Scanned(path, found, componentStart)
    {
      var separator := Find(path, '/', componentStart);
      var component := path[componentStart..separator];
      NextComponent(path, found, componentStart, separator, component);
      if component == "" || component == "." || component == ".." {
        return None;
      }
      found := found + [component];
      componentStart := if separator == |path| then separator else separator + 1;
    }
    components := Some(found);
  }

  method ParseAbsolutePath(path: string, allowRoot: bool) returns (parsed: Option<ParsedPath>)
    ensures parsed == PathOf(path, allowRoot)
  {
    if path == "" || path[0] != '/' {
      return None;
    }
    if |path| > 1 && path[|path| - 1] == '/' {
      TrailingSlashIsNotCanonical(path);
      return None;
    }
    if '\0' in path {
      NulIsNotCanonical(path);
      return None;
    }
    var components := ScanComponents(path);
    if components.None? {
      return None;
    }
    if !allowRoot && components.value == [] {
      RootHasNoComponents(path);
      return None;
    }
    RootHasNoComponents(path);
    parsed := Some(ParsedPath(path, components.value));
  }

  lemma RootHasNoComponents(path: string)
    requires path != "" && path[0] == '/'
    ensures ComponentsOf(path) == [] <==> path == "/"
  {
  }

  // ----- the manifest -----

  predicate IsEntryLine(line: string) {
    '\r' !in line && IsCanonical(line) && line != "/"
  }

  predicate IsManifest(lines: seq<string>) {
    && 1 <= |lines| <= MAX_MANIFEST_ENTRIES
    && AreDistinct(lines)
    && forall i | 0 <= i < |lines| :: IsEntryLine(lines[i])
  }

  function EntriesOf(lines: seq<string>): (entries: seq<ParsedPath>)
    ensures |entries| == |lines|
  {
    seq(|lines|, i requires 0 <= i < |lines| => ParsedPath(lines[i], ComponentsOf(lines[i])))
  }

  function ManifestOf(contents: string): Option<seq<ParsedPath>> {
    var lines := LinesFrom(contents, 0);
    if IsManifest(lines) then Some(EntriesOf(lines)) else None
  }

  /** Distinct canonical entries come back from their newline-joined text, with or
      without a final newline. */
  lemma ManifestRoundTrip(lines: seq<string>, terminated: bool)
    requires IsManifest(lines) && forall line | line in lines :: Free(line, '\n')
    ensures ManifestOf(Join(lines, '\n') + (if terminated then "\n" else "")) == Some(EntriesOf(lines))
  {
    LinesOfJoin(lines, terminated);
  }

  /** Nothing else is accepted. */
  lemma ManifestAccepts(contents: string)
    requires ManifestOf(contents).Some?
    ensures var lines := LinesFrom(contents, 0);
      && IsManifest(lines) && ManifestOf(contents) == Some(EntriesOf(lines))
      && (contents == Join(lines, '\n') || contents == Join(lines, '\n') + "\n")
  {
    JoinLines(contents);
  }

  function TextsOf(entries: seq<ParsedPath>): (r: seq<string>)
    ensures |r| == |entries|
  {
    seq(|entries|, i requires 0 <= i < |entries| => entries[i].text)
  }

  predicate ParsedEntries(entries: seq<ParsedPath>) {
    forall i | 0 <= i < |entries| ::
      IsEntryLine(entries[i].text) && entries[i].components == ComponentsOf(entries[i].text)
  }

  /** The lines before `start` are parsed and accepted; the rest are to come. */
  ghost predicate Collected(contents: string, entries: seq<ParsedPath>, unique: set<string>, start: nat) {
    && start <= |contents|
    && |entries| <= MAX_MANIFEST_ENTRIES
    && AreDistinct(TextsOf(entries))
    && ParsedEntries(entries)
    && (forall text :: text in unique <==> text in TextsOf(entries))
    && LinesFrom(contents, 0) == TextsOf(entries) + LinesFrom(contents, start)
  }

  lemma DistinctMore(before: seq<string>, line: string)
    requires AreDistinct(before) && line !in before
    ensures AreDistinct(before + [line])
  {
  }

  lemma LineRefused(lines: seq<string>, before: seq<string>, line: string)
    requires before + [line] <= lines
    requires !IsEntryLine(line) || line in before || |before| >= MAX_MANIFEST_ENTRIES
    ensures !IsManifest(lines)
  {
    assert lines[|before|] == line;
    if line in before {
      var i :| 0 <= i < |before| && before[i] == line;
      assert lines[i] == lines[|before|];
    }
  }

  lemma NextLine(
    contents: string, entries: seq<ParsedPath>, unique: set<string>, start: nat, newline: nat, line: string)
    requires Collected(contents, entries, unique, start) && start < |contents|
    requires newline == Find(contents, '\n', start) && line == contents[start..newline]
    ensures !IsEntryLine(line) || line in unique || |entries| == MAX_MANIFEST_ENTRIES ==>
      !IsManifest(LinesFrom(contents, 0))
    ensures IsEntryLine(line) && line !in unique && |entries| < MAX_MANIFEST_ENTRIES ==>
      Collected(
        contents, entries + [ParsedPath(line, ComponentsOf(line))], unique + {line},
        if newline == |contents| then newline else newline + 1)
  {
    var next := if newline == |contents| then newline else newline + 1;
    MiddlePart(LinesFrom(contents, 0), TextsOf(entries), LinesFrom(contents, start), line, LinesFrom(contents, next));
    if !IsEntryLine(line) || line in unique || |entries| >= MAX_MANIFEST_ENTRIES {
      LineRefused(LinesFrom(contents, 0), TextsOf(entries), line);
    } else {
      LineTaken(contents, entries, unique, next, line);
    }
  }

  lemma LineTaken(contents: string, entries: seq<ParsedPath>, unique: set<string>, next: nat, line: string)
    requires next <= |contents| && LinesFrom(contents, 0) == TextsOf(entries) + [line] + LinesFrom(contents, next)
    requires IsEntryLine(line) && line !in unique && |entries| < MAX_MANIFEST_ENTRIES
    requires AreDistinct(TextsOf(entries)) && ParsedEntries(entries)
    requires forall text :: text in unique <==> text in TextsOf(entries)
    ensures Collected(contents, entries + [ParsedPath(line, ComponentsOf(line))], unique + {line}, next)
  {
    assert TextsOf(entries + [ParsedPath(line, ComponentsOf(line))]) == TextsOf(entries) + [line];
    DistinctMore(TextsOf(entries), line);
  }

  method ParseManifestEntries(contents: string) returns (manifest: Option<seq<ParsedPath>>)
    ensures manifest == ManifestOf(contents)
  {
    var entries: seq<ParsedPath>, unique: set<string> := [], {};
    var lineStart := 0;
    assert LinesFrom(contents, 0) == TextsOf(entries) + LinesFrom(contents, 0);
    while lineStart < |contents|
      invariant Collected(contents, entries, unique, lineStart)
    {
      var newline := Find(contents, '\n', lineStart);
      var line := contents[lineStart..newline];
      NextLine(contents, entries, unique, lineStart, newline, line);
      if line == "" || '\r' in line {
        return None;
      }
      var entry := ParseAbsolutePath(line, false);
      if entry.None? {
        return None;
      }
      if entry.value.text in unique {
        return None;
      }
      unique := unique + {entry.value.text};
      entries := entries + [entry.value];
      if |entries| > MAX_MANIFEST_ENTRIES {
        return None;
      }
      lineStart := if newline == |contents| then newline else newline + 1;
    }
    AllCollected(contents, entries, unique);
    if entries == [] {
      return None;
    }
    manifest := Some(entries);
  }

  lemma AllCollected(contents: string, entries: seq<ParsedPath>, unique: set<string>)
    requires Collected(contents, entries, unique, |contents|)
    ensures ManifestOf(contents) == if entries == [] then None else Some(entries)
  {
    assert TextsOf(entries) + [] == TextsOf(entries);
    if entries != [] {
      assert EntriesOf(TextsOf(entries)) == entries;
    }
  }

  // ----- install roots -----

  method IsStrictlyBeneath(path: ParsedPath, allowedRoot: ParsedPath) returns (beneath: bool)
    ensures beneath <==> allowedRoot.components < path.components
  {
    if |path.components| <= |allowedRoot.components| {
      return false;
    }
    for index := 0 to |allowedRoot.components|
      invariant forall k | 0 <= k < index :: path.components[k] == allowedRoot.components[k]
    {
      if path.components[index] != allowedRoot.components[index] {
        return false;
      }
    }
    beneath := true;
  }

  lemma {:induction false} JoinBoth(left: seq<string>, right: seq<string>, c: char)
    requires left != [] && right != []
    ensures Join(left + right, c) == Join(left, c) + [c] + Join(right, c)
  {
    assert (left + right)[1..] == left[1..] + right;
    if |left| > 1 {
      JoinBoth(left[1..], right, c);
    }
  }

  /** Comparing components is the same as asking whether the text starts with the
      root followed by a slash. */
  lemma BeneathIsTextual(path: seq<string>, root: seq<string>)
    requires AreComponents(path) && AreComponents(root) && root != []
    ensures root < path <==> PathText(root) + "/" <= PathText(path)
  {
    if root < path {
      assert path == root + path[|root|..];
      JoinBoth(root, path[|root|..], '/');
    }
    if PathText(root) + "/" <= PathText(path) {
      var tail := PathText(path)[|PathText(root)| + 1..];
      var parts := Split(tail, '/');
      JoinSplit(tail, '/');
      JoinBoth(root, parts, '/');
      assert PathText(path) == "/" + Join(root + parts, '/');
      ComponentsFree(root);
      PiecesOfJoin(PathText(path), 1, root + parts, '/');
      CanonicalText(path);
      assert path == root + parts;
    }
  }

  function FirstOccurrences(texts: seq<string>): seq<string> {
    if texts == [] then []
    else
      var before, last := FirstOccurrences(texts[..|texts| - 1]), texts[|texts| - 1];
      if last in before then before else before + [last]
  }

  lemma {:induction false} FirstOccurrencesKeep(texts: seq<string>)
    ensures forall text :: text in FirstOccurrences(texts) <==> text in texts
    ensures AreDistinct(FirstOccurrences(texts))
  {
    if texts != [] {
      var init, last := texts[..|texts| - 1], texts[|texts| - 1];
      FirstOccurrencesKeep(init);
      assert texts == init + [last];
    }
  }

  predicate AreRoots(rawRoots: seq<string>) {
    forall i | 0 <= i < |rawRoots| :: PathOf(rawRoots[i], false).Some?
  }

  /** The texts found so far, as entries and as a set. */
  ghost predicate AreHeld(found: seq<string>, parsed: seq<ParsedPath>, unique: set<string>) {
    parsed == EntriesOf(found) && forall text :: text in unique <==> text in found
  }

  lemma HoldOneMore(found: seq<string>, parsed: seq<ParsedPath>, unique: set<string>, text: string)
    requires AreHeld(found, parsed, unique)
    ensures AreHeld(found + [text], parsed + [ParsedPath(text, ComponentsOf(text))], unique + {text})
  {
    assert EntriesOf(found + [text]) == EntriesOf(found) + [ParsedPath(text, ComponentsOf(text))];
  }

  lemma NextOccurrence(texts: seq<string>, n: nat)
    requires n < |texts|
    ensures var before := FirstOccurrences(texts[..n]);
      FirstOccurrences(texts[..n + 1]) == if texts[n] in before then before else before + [texts[n]]
  {
    assert texts[..n + 1][..n] == texts[..n];
  }

  lemma NextIsRoot(rawRoots: seq<string>, n: nat)
    requires n < |rawRoots| && AreRoots(rawRoots[..n]) && PathOf(rawRoots[n], false).Some?
    ensures AreRoots(rawRoots[..n + 1])
  {
  }

  /** The given roots, each once, when all of them are canonical. */
  method ParseAllowedRoots(rawRoots: seq<string>) returns (roots: Option<seq<ParsedPath>>)
    ensures roots == if AreRoots(rawRoots) then Some(EntriesOf(FirstOccurrences(rawRoots))) else None
  {
    var parsed: seq<ParsedPath>, unique: set<string> := [], {};
    ghost var found: seq<string> := [];
    for index := 0 to |rawRoots|
      invariant AreRoots(rawRoots[..index]) && found == FirstOccurrences(rawRoots[..index])
      invariant AreHeld(found, parsed, unique)
    {
      var root := ParseAbsolutePath(rawRoots[index], false);
      if root.None? {
        return None;
      }
      NextIsRoot(rawRoots, index);
      NextOccurrence(rawRoots, index);
      if root.value.text !in unique {
        HoldOneMore(found, parsed, unique, root.value.text);
        found := found + [root.value.text];
        parsed, unique := parsed + [root.value], unique + {root.value.text};
      }
    }
    assert rawRoots[..|rawRoots|] == rawRoots;
    roots := Some(parsed);
  }

  /** The depth of the first allowed root the entry lies beneath. */
  function DepthOf(entry: ParsedPath, allowedRoots: seq<ParsedPath>): Option<nat> {
    if allowedRoots == [] then None
    else if allowedRoots[0].components < entry.components then Some(|allowedRoots[0].components|)
    else DepthOf(entry, allowedRoots[1..])
  }

  lemma {:induction false} DepthMeans(entry: ParsedPath, allowedRoots: seq<ParsedPath>)
    ensures DepthOf(entry, allowedRoots).Some? <==>
      exists root | root in allowedRoots :: root.components < entry.components
  {
    if allowedRoots != [] {
      DepthMeans(entry, allowedRoots[1..]);
      assert allowedRoots == [allowedRoots[0]] + allowedRoots[1..];
    }
  }

  method ValidateAllowedEntry(entry: ParsedPath, allowedRoots: seq<ParsedPath>) returns (depth: Option<nat>)
    ensures depth == DepthOf(entry, allowedRoots)
  {
    for index := 0 to |allowedRoots|
      invariant DepthOf(entry, allowedRoots) == DepthOf(entry, allowedRoots[index..])
    {
      var beneath := IsStrictlyBeneath(entry, allowedRoots[index]);
      if beneath {
        return Some(|allowedRoots[index].components|);
      }
    }
    depth := None;
  }
}
