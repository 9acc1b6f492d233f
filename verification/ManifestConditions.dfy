/**
 The install manifest once more, told from the characters of its lines: which texts are
 paths, which are manifests and what entries they hold.
 */
module ManifestConditions {
  import opened Wrappers
  import opened TextLists
  import opened Paths
  import opened InstallManifest

  /** A name as an absolute path may hold it: no slash, no NUL, and not one of the dots. */
  ghost predicate IsName(name: string) {
    && |name| > 0 && !(|name| == 1 && name[0] as int == 46)
    && !(|name| == 2 && name[0] as int == 46 && name[1] as int == 46)
    && forall i | 0 <= i < |name| :: name[i] as int != 47 && name[i] as int != 0
  }

  ghost predicate AreNames(names: seq<string>) {
    forall name | name in names :: IsName(name)
  }

  /** One slash before each name, and nothing else. */
  ghost predicate Spells(text: string, names: seq<string>)
    decreases |names|
  {
    if names == [] then text == ""
    else
      && |text| > |names[0]| && text[0] as int == 47 && text[1..|names[0]| + 1] == names[0]
      && Spells(text[|names[0]| + 1..], names[1..])
  }

  lemma NameMeans(name: string)
    ensures IsComponent(name) <==> IsName(name)
  {
    assert name == "." <==> |name| == 1 && name[0] == '.';
    assert name == ".." <==> |name| == 2 && name[0] == '.' && name[1] == '.';
  }

  lemma NamesMean(names: seq<string>)
    ensures AreComponents(names) <==> AreNames(names)
  {
    forall name ensures IsComponent(name) <==> IsName(name) {
      NameMeans(name);
    }
    if AreNames(names) {
      forall i | 0 <= i < |names| ensures IsComponent(names[i]) {
        assert names[i] in names;
      }
    }
  }

  lemma {:induction false} SpelledIsText(text: string, names: seq<string>)
    requires names != []
    ensures Spells(text, names) <==> text == PathText(names)
    decreases |names|
  {
    var name, rest := names[0], names[1..];
    if rest == [] {
      assert names == [name];
      if Spells(text, names) {
        assert text == [text[0]] + text[1..|name| + 1] + text[|name| + 1..];
      }
    } else {
      assert PathText(names) == "/" + name + PathText(rest);
      if |text| > |name| {
        SpelledIsText(text[|name| + 1..], rest);
      }
      if Spells(text, names) {
        assert text == [text[0]] + text[1..|name| + 1] + text[|name| + 1..];
      }
      if text == PathText(names) {
        SpelledIsText(PathText(rest), rest);
        assert text[|name| + 1..] == PathText(rest);
      }
    }
  }

  /** A text is a path exactly when it spells names, or is the root where that is
      allowed; the names are then all there is to it. */
  lemma PathMeans(path: string, allowRoot: bool, names: seq<string>)
    ensures PathOf(path, allowRoot) == Some(ParsedPath(path, names)) <==>
      if names == [] then allowRoot && path == "/" else AreNames(names) && Spells(path, names)
    ensures PathOf(path, allowRoot).Some? ==> PathOf(path, allowRoot).value.text == path
  {
    NamesMean(names);
    AcceptsExactlyCanonical(path, allowRoot);
    if names == [] {
      RootOrNone(path, allowRoot);
    } else {
      SpelledIsText(path, names);
      if PathOf(path, allowRoot) == Some(ParsedPath(path, names)) {
        TextCanonical(path);
      }
    }
  }

  lemma RootOrNone(path: string, allowRoot: bool)
    ensures PathOf(path, allowRoot) == Some(ParsedPath(path, [])) <==> allowRoot && path == "/"
  {
    if path != "" && path[0] == '/' {
      RootHasNoComponents(path);
    }
  }

  /** The lines one after the other, each ended by a newline but perhaps the last. */
  ghost predicate AreWritten(contents: string, lines: seq<string>)
    decreases |lines|
  {
    if |lines| == 0 then contents == ""
    else if |lines| == 1 then contents == lines[0] || contents == lines[0] + "\n"
    else
      && |contents| > |lines[0]| && contents[..|lines[0]|] == lines[0] && contents[|lines[0]|] as int == 10
      && AreWritten(contents[|lines[0]| + 1..], lines[1..])
  }

  lemma {:induction false} WrittenIsJoined(contents: string, lines: seq<string>)
    requires lines != []
    ensures AreWritten(contents, lines) <==> contents == Join(lines, '\n') || contents == Join(lines, '\n') + "\n"
    decreases |lines|
  {
    if |lines| > 1 {
      var first, rest := lines[0], lines[1..];
      var joined := Join(rest, '\n');
      assert Join(lines, '\n') == first + ['\n'] + joined;
      assert Join(lines, '\n') + "\n" == first + ['\n'] + (joined + "\n");
      if AreWritten(contents, lines) {
        WrittenIsJoined(contents[|first| + 1..], rest);
        assert contents == first + ['\n'] + contents[|first| + 1..];
      }
      if contents == Join(lines, '\n') || contents == Join(lines, '\n') + "\n" {
        assert contents[|first| + 1..] == joined || contents[|first| + 1..] == joined + "\n";
        WrittenIsJoined(contents[|first| + 1..], rest);
      }
    }
  }

  /** An entry names something below the root, on one line. */
  ghost predicate IsEntry(entry: ParsedPath) {
    && |entry.components| > 0 && AreNames(entry.components) && Spells(entry.text, entry.components)
    && forall i | 0 <= i < |entry.text| :: entry.text[i] as int != 10 && entry.text[i] as int != 13
  }

  /** From one to 4096 entries that all differ. */
  ghost predicate AreEntries(entries: seq<ParsedPath>) {
    && 1 <= |entries| <= 4096 && (forall i | 0 <= i < |entries| :: IsEntry(entries[i]))
    && forall i, j | 0 <= i < j < |entries| :: entries[i].text != entries[j].text
  }

  lemma EntryMeans(line: string, names: seq<string>)
    requires Free(line, '\n')
    ensures IsEntryLine(line) && ComponentsOf(line) == names <==> IsEntry(ParsedPath(line, names))
  {
    PathMeans(line, false, names);
    if IsEntryLine(line) && ComponentsOf(line) == names {
      RootOrNone(line, false);
      assert PathOf(line, false) == Some(ParsedPath(line, names));
      forall i | 0 <= i < |line| ensures line[i] as int != 10 && line[i] as int != 13 {
        assert line[i] in line;
      }
    }
    if IsEntry(ParsedPath(line, names)) {
      assert PathOf(line, false) == Some(ParsedPath(line, names));
      forall c | c in line ensures c != '\r' {
        var i :| 0 <= i < |line| && line[i] == c;
      }
    }
  }

  lemma EntryIsFree(entry: ParsedPath)
    requires IsEntry(entry)
    ensures entry.text != "" && Free(entry.text, '\n')
  {
    forall c | c in entry.text ensures c != '\n' {
      var i :| 0 <= i < |entry.text| && entry.text[i] == c;
    }
  }

  /** A manifest is what is written of its entries, and nothing else is one. */
  lemma ManifestMeans(contents: string, entries: seq<ParsedPath>)
    ensures ManifestOf(contents) == Some(entries) <==>
      AreEntries(entries) && AreWritten(contents, TextsOf(entries))
  {
    if ManifestOf(contents) == Some(entries) {
      ManifestHas(contents, entries);
    }
    if AreEntries(entries) && AreWritten(contents, TextsOf(entries)) {
      WrittenIsManifest(contents, entries);
    }
  }

  lemma ManifestHas(contents: string, entries: seq<ParsedPath>)
    requires ManifestOf(contents) == Some(entries)
    ensures AreEntries(entries) && AreWritten(contents, TextsOf(entries))
  {
    var lines := LinesFrom(contents, 0);
    ManifestAccepts(contents);
    JoinLines(contents);
    assert TextsOf(entries) == lines;
    WrittenIsJoined(contents, lines);
    forall i | 0 <= i < |entries| ensures IsEntry(entries[i]) {
      assert IsEntryLine(lines[i]) && lines[i] in lines;
      EntryMeans(lines[i], ComponentsOf(lines[i]));
    }
    forall i, j | 0 <= i < j < |entries| ensures entries[i].text != entries[j].text {
      assert lines[i] != lines[j];
    }
  }

  lemma EntryLine(entry: ParsedPath)
    requires IsEntry(entry)
    ensures IsEntryLine(entry.text) && ComponentsOf(entry.text) == entry.components
    ensures entry.text != "" && Free(entry.text, '\n')
  {
    EntryIsFree(entry);
    EntryMeans(entry.text, entry.components);
  }

  ghost predicate AreWhole(lines: seq<string>) {
    forall line | line in lines :: line != "" && Free(line, '\n')
  }

  lemma EntriesMakeManifest(entries: seq<ParsedPath>)
    requires AreEntries(entries)
    ensures IsManifest(TextsOf(entries)) && EntriesOf(TextsOf(entries)) == entries && AreWhole(TextsOf(entries))
  {
    var lines := TextsOf(entries);
    forall i | 0 <= i < |lines|
      ensures IsEntryLine(lines[i]) && ComponentsOf(lines[i]) == entries[i].components
      ensures lines[i] != "" && Free(lines[i], '\n')
    {
      assert IsEntry(entries[i]);
      EntryLine(entries[i]);
    }
    assert AreDistinct(lines);
  }

  lemma WrittenAreLines(contents: string, lines: seq<string>)
    requires lines != [] && AreWhole(lines) && AreWritten(contents, lines)
    ensures LinesFrom(contents, 0) == lines
  {
    WrittenIsJoined(contents, lines);
    var terminated := contents != Join(lines, '\n');
    assert contents == Join(lines, '\n') + (if terminated then "\n" else "");
    LinesOfJoin(lines, terminated);
  }

  lemma WrittenIsManifest(contents: string, entries: seq<ParsedPath>)
    requires AreEntries(entries) && AreWritten(contents, TextsOf(entries))
    ensures ManifestOf(contents) == Some(entries)
  {
    EntriesMakeManifest(entries);
    WrittenAreLines(contents, TextsOf(entries));
  }
}
