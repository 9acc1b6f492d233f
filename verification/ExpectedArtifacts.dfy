/**
 What makepkg announces it will produce: the records of its packagelist output,
 and the check that each one names a new direct child of the workspace.
 */
module ExpectedArtifacts {
  import opened Wrappers
  import opened TextLists
  import opened Paths
  import opened FileSystem
  import WorkspaceCleanup

  // ----- records -----

  predicate IsBadControl(c: char) {
    c == '\r' || (c as int < 0x20 && c != '\n') || c as int == 0x7F
  }

  predicate IsControlFree(text: string) {
    forall i | 0 <= i < |text| :: !IsBadControl(text[i])
  }

  predicate IsBlank(line: string) {
    forall i | 0 <= i < |line| :: line[i] == ' ' || line[i] == '\t'
  }

  function NonBlank(lines: seq<string>): (r: seq<string>)
    ensures forall line | line in r :: line in lines && !IsBlank(line)
  {
    if lines == [] then []
    else NonBlank(lines[..|lines| - 1]) + (if IsBlank(lines[|lines| - 1]) then [] else [lines[|lines| - 1]])
  }

  function PackagelistRecords(raw: string): Option<seq<string>> {
    var records := NonBlank(Split(raw, '\n'));
    if IsControlFree(raw) && AreDistinct(records) then Some(records) else None
  }

  lemma NonBlankMore(lines: seq<string>, line: string)
    ensures NonBlank(lines + [line]) == NonBlank(lines) + (if IsBlank(line) then [] else [line])
  {
    assert (lines + [line])[..|lines|] == lines;
  }

  lemma {:induction false} NonBlankPrefix(lines: seq<string>, more: seq<string>)
    ensures NonBlank(lines) <= NonBlank(lines + more)
  {
    if more == [] {
      assert lines + more == lines;
    } else {
      var most, last := more[..|more| - 1], more[|more| - 1];
      NonBlankPrefix(lines, most);
      NonBlankMore(lines + most, last);
      LastApart(lines, more);
    }
  }

  lemma LastApart(lines: seq<string>, more: seq<string>)
    requires more != []
    ensures lines + more == lines + more[..|more| - 1] + [more[|more| - 1]]
  {
  }

  /** The pieces before `start` have been read; `lines` are all of them. */
  ghost predicate IsRead(raw: string, lines: seq<string>, start: nat) {
    start <= |raw| && Split(raw, '\n') == lines + Pieces(raw, '\n', start)
  }

  lemma NextPiece(raw: string, lines: seq<string>, start: nat, end: nat, line: string)
    requires IsRead(raw, lines, start) && end == Find(raw, '\n', start) && line == raw[start..end]
    ensures end == |raw| ==> Split(raw, '\n') == lines + [line]
    ensures end < |raw| ==> IsRead(raw, lines + [line], end + 1)
    ensures NonBlank(lines + [line]) <= NonBlank(Split(raw, '\n'))
  {
    if end == |raw| {
      NonBlankPrefix(lines + [line], []);
      assert lines + [line] + [] == lines + [line];
    } else {
      var rest := Pieces(raw, '\n', end + 1);
      assert lines + ([line] + rest) == lines + [line] + rest;
      NonBlankPrefix(lines + [line], rest);
    }
  }

  lemma DuplicateRefuses(records: seq<string>, line: string, all: seq<string>)
    requires line in records && records + [line] <= all
    ensures !AreDistinct(all)
  {
    var i :| 0 <= i < |records| && records[i] == line;
    assert all[i] == all[|records|];
  }

  /** What the scan holds after the pieces `lines`. */
  ghost predicate HasCollected(lines: seq<string>, collected: seq<string>, seen: set<string>) {
    && collected == NonBlank(lines) && AreDistinct(collected)
    && forall line :: line in seen <==> line in collected
  }

  lemma CollectNext(lines: seq<string>, collected: seq<string>, seen: set<string>, line: string)
    requires HasCollected(lines, collected, seen) && line !in seen
    ensures IsBlank(line) ==> HasCollected(lines + [line], collected, seen)
    ensures !IsBlank(line) ==> HasCollected(lines + [line], collected + [line], seen + {line})
  {
    NonBlankMore(lines, line);
    assert collected + [] == collected;
  }

  lemma CollectDuplicate(raw: string, lines: seq<string>, collected: seq<string>, seen: set<string>, line: string)
    requires HasCollected(lines, collected, seen) && line in seen && !IsBlank(line)
    requires NonBlank(lines + [line]) <= NonBlank(Split(raw, '\n'))
    ensures PackagelistRecords(raw).None?
  {
    NonBlankMore(lines, line);
    DuplicateRefuses(collected, line, NonBlank(Split(raw, '\n')));
  }

  method CheckControlCharacters(raw: string) returns (ok: bool)
    ensures ok <==> IsControlFree(raw)
  {
    for i := 0 to |raw|
      invariant forall k | 0 <= k < i :: !IsBadControl(raw[k])
    {
      if raw[i] == '\r' {
        return false;
      }
      if (raw[i] as int < 0x20 && raw[i] != '\n') || raw[i] as int == 0x7F {
        return false;
      }
    }
    ok := true;
  }

  /** One turn of the scan: the new piece refuses the text or joins the others. */
  lemma ReadNext(
    raw: string, lines: seq<string>, start: nat, end: nat, line: string, collected: seq<string>, seen: set<string>)
    requires IsRead(raw, lines, start) && HasCollected(lines, collected, seen)
    requires end == Find(raw, '\n', start) && line == raw[start..end]
    ensures !IsBlank(line) && line in seen ==> PackagelistRecords(raw).None?
    ensures IsBlank(line) ==> HasCollected(lines + [line], collected, seen)
    ensures !IsBlank(line) && line !in seen ==> HasCollected(lines + [line], collected + [line], seen + {line})
    ensures end < |raw| ==> IsRead(raw, lines + [line], end + 1)
    ensures end == |raw| ==> lines + [line] == Split(raw, '\n')
  {
    NextPiece(raw, lines, start, end, line);
    if line in seen {
      if !IsBlank(line) {
        CollectDuplicate(raw, lines, collected, seen, line);
      }
    } else {
      CollectNext(lines, collected, seen, line);
    }
  }

  method ParsePackagelistRecords(raw: string) returns (records: Option<seq<string>>)
    ensures records == PackagelistRecords(raw)
  {
    var ok := CheckControlCharacters(raw);
    if !ok {
      return None;
    }
    var collected: seq<string>, seen: set<string> := [], {};
    var lineStart := 0;
    ghost var lines: seq<string> := [];
    assert IsRead(raw, [], 0) by { assert [] + Pieces(raw, '\n', 0) == Split(raw, '\n'); }
    while true
      invariant IsRead(raw, lines, lineStart)
      invariant HasCollected(lines, collected, seen)
      decreases |raw| - lineStart
    {
      var lineEnd := Find(raw, '\n', lineStart);
      var line := raw[lineStart..lineEnd];
      ReadNext(raw, lines, lineStart, lineEnd, line, collected, seen);
      lines := lines + [line];
      if !IsBlank(line) {
        if line in seen {
          return None;
        }
        seen := seen + {line};
        collected := collected + [line];
      }
      if lineEnd == |raw| {
        break;
      }
      lineStart := lineEnd + 1;
    }
    assert HasCollected(Split(raw, '\n'), collected, seen);
    records := Some(collected);
  }

  /** Distinct records come back from their newline-joined text, in order, with any
      blank lines between, before and after them. */
  lemma RecordsComeBack(lines: seq<string>)
    requires lines != [] && AreDistinct(NonBlank(lines))
    requires forall line | line in lines :: IsControlFree(line) && Free(line, '\n')
    ensures PackagelistRecords(Join(lines, '\n')) == Some(NonBlank(lines))
  {
    SplitJoin(lines, '\n');
    JoinControlFree(lines);
  }

  lemma {:induction false} JoinControlFree(lines: seq<string>)
    requires forall line | line in lines :: IsControlFree(line)
    ensures IsControlFree(Join(lines, '\n'))
  {
    if lines != [] {
      assert lines[0] in lines;
      JoinControlFree(lines[1..]);
    }
  }

  /** And nothing else is accepted: a text with records is such a join. */
  lemma AcceptedRecords(raw: string)
    requires PackagelistRecords(raw).Some?
    ensures exists lines :: lines != [] && raw == Join(lines, '\n') && PackagelistRecords(raw) == Some(NonBlank(lines))
    ensures forall record | record in PackagelistRecords(raw).value :: IsControlFree(record) && Free(record, '\n')
  {
    JoinSplit(raw, '\n');
    var lines := Split(raw, '\n');
    assert raw == Join(lines, '\n');
    forall record | record in PackagelistRecords(raw).value ensures IsControlFree(record) && Free(record, '\n') {
      assert record in lines;
      PiecesControlFree(raw, 0, record);
    }
  }

  lemma {:induction false} PiecesControlFree(raw: string, start: nat, piece: string)
    requires IsControlFree(raw) && start <= |raw| && piece in Pieces(raw, '\n', start)
    ensures IsControlFree(piece)
    decreases |raw| - start
  {
    var end := Find(raw, '\n', start);
    if end < |raw| && piece != raw[start..end] {
      PiecesControlFree(raw, end + 1, piece);
    }
  }

  // ----- paths -----

  /** A path as the file system library sees it: repeated slashes do not count, a
      final one leaves an empty file name. */
  datatype Path = Path(absolute: bool, components: seq<string>, trailing: bool)

  function NonEmpty(pieces: seq<string>): seq<string> {
    if pieces == [] then [] else (if pieces[0] == "" then [] else [pieces[0]]) + NonEmpty(pieces[1..])
  }

  function PathOf(text: string): Path {
    var components := NonEmpty(Split(text, '/'));
    Path(text != "" && text[0] == '/', components, components != [] && text != "" && text[|text| - 1] == '/')
  }

  function Filename(p: Path): string {
    if p.trailing || p.components == [] then "" else p.components[|p.components| - 1]
  }

  function ParentPath(p: Path): Path {
    if p.trailing then p.(trailing := false)
    else if p.components == [] then p
    else p.(components := p.components[..|p.components| - 1])
  }

  predicate IsDirectExpectedPath(workspace: seq<string>, candidate: Path) {
    && candidate.absolute
    && (forall i | 0 <= i < |candidate.components| :: candidate.components[i] != "." && candidate.components[i] != "..")
    && candidate != Path(true, workspace, false)
    && Filename(candidate) != "" && ParentPath(candidate) == Path(true, workspace, false)
  }

  /** Exactly the paths one plain name below the workspace are direct. */
  lemma DirectMeans(workspace: seq<string>, text: string)
    requires AreComponents(workspace)
    ensures IsDirectExpectedPath(workspace, PathOf(text)) <==>
      exists leaf :: leaf != "" && leaf != "." && leaf != ".." && PathOf(text) == Path(true, workspace + [leaf], false)
  {
    var p := PathOf(text);
    if IsDirectExpectedPath(workspace, p) {
      assert p.components == p.components[..|p.components| - 1] + [p.components[|p.components| - 1]];
      assert p == Path(true, workspace + [Filename(p)], false);
    }
    if exists leaf :: leaf != "" && leaf != "." && leaf != ".." && p == Path(true, workspace + [leaf], false) {
      var leaf :| leaf != "" && leaf != "." && leaf != ".." && p == Path(true, workspace + [leaf], false);
      assert ParentPath(p).components == workspace;
    }
  }

  lemma {:induction false} NonEmptyKeeps(pieces: seq<string>)
    requires forall i | 0 <= i < |pieces| :: pieces[i] != ""
    ensures NonEmpty(pieces) == pieces
  {
    if pieces != [] {
      NonEmptyKeeps(pieces[1..]);
    }
  }

  lemma PathTextSplits(components: seq<string>)
    requires AreComponents(components) && components != []
    ensures Split(PathText(components), '/') == [""] + components
  {
    var text := PathText(components);
    ComponentsFree(components);
    PiecesOfJoin(text, 1, components, '/');
    assert text[0..] == "" + text;
    PieceAt(text, 0, "", text, '/');
  }

  lemma NonEmptySkips(pieces: seq<string>)
    ensures NonEmpty([""] + pieces) == NonEmpty(pieces)
  {
    assert ([""] + pieces)[1..] == pieces;
  }

  /** The text starts with a slash and does not end with one. */
  lemma PathTextEnds(components: seq<string>)
    requires AreComponents(components) && components != []
    ensures var text := PathText(components); text != "" && text[0] == '/' && text[|text| - 1] != '/'
  {
    var last := components[|components| - 1];
    assert IsComponent(last);
    JoinEnds(components, '/');
  }

  lemma PathTextParses(components: seq<string>)
    requires AreComponents(components) && components != []
    ensures PathOf(PathText(components)) == Path(true, components, false)
  {
    PathTextSplits(components);
    NonEmptySkips(components);
    NonEmptyKeeps(components);
    PathTextEnds(components);
  }

  /** The canonical spelling of a direct child is accepted. */
  lemma CanonicalChildIsDirect(workspace: seq<string>, leaf: string)
    requires AreComponents(workspace) && IsComponent(leaf)
    ensures PathOf(PathText(workspace + [leaf])) == Path(true, workspace + [leaf], false)
    ensures IsDirectExpectedPath(workspace, PathOf(PathText(workspace + [leaf])))
  {
    PathTextParses(workspace + [leaf]);
    DirectMeans(workspace, PathText(workspace + [leaf]));
  }

  lemma {:induction false} JoinEnds(parts: seq<string>, c: char)
    requires parts != [] && parts[|parts| - 1] != ""
    ensures var last, text := parts[|parts| - 1], Join(parts, c); text != "" && text[|text| - 1] == last[|last| - 1]
  {
    if |parts| > 1 {
      JoinEnds(parts[1..], c);
    }
  }

  // ----- expectations -----

  /** A workspace: the cache root, its name there, its directory, owner and path. */
  datatype Place = Place(root: Inode, name: string, directory: Inode, owner: nat, path: seq<string>)

  predicate IsInPlace(fs: Fs, effectiveUser: nat, place: Place) {
    WorkspaceCleanup.WorkspaceInPlace(fs, place.root, place.name, place.directory, place.owner)
    && place.owner == effectiveUser
  }

  datatype Entry = Entry(path: Path, leaf: string)

  function EntryOf(record: string): Entry {
    Entry(PathOf(record), Filename(PathOf(record)))
  }

  function EntriesOf(records: seq<string>): (r: seq<Entry>)
    ensures |r| == |records|
  {
    seq(|records|, i requires 0 <= i < |records| => EntryOf(records[i]))
  }

  function SignatureOf(leaf: string): string {
    leaf + ".sig"
  }

  function Leaves(entries: seq<Entry>): seq<string> {
    seq(|entries|, i requires 0 <= i < |entries| => entries[i].leaf)
  }

  predicate IsAbsentAt(fs: Fs, dir: Inode, leaf: string) {
    Lookup(fs, dir, leaf).None? && Lookup(fs, dir, SignatureOf(leaf)).None?
  }

  /** No leaf is the signature name of a leaf. */
  predicate DoNotCollide(leaves: seq<string>) {
    forall i, j | 0 <= i < |leaves| && 0 <= j < |leaves| :: leaves[i] != SignatureOf(leaves[j])
  }

  predicate AreDirect(place: Place, records: seq<string>) {
    forall i | 0 <= i < |records| :: IsDirectExpectedPath(place.path, PathOf(records[i]))
  }

  predicate AreAbsent(fs: Fs, dir: Inode, leaves: seq<string>) {
    forall i | 0 <= i < |leaves| :: IsAbsentAt(fs, dir, leaves[i])
  }

  /** What the single pipeline accepts; `later` is the file system at its end. */
  function ExpectedArtifact(fs: Fs, later: Fs, effectiveUser: nat, place: Place, raw: string): Option<Entry> {
    var records := PackagelistRecords(raw);
    if records.None? || |records.value| != 1 || !AreDirect(place, records.value) then None
    else
      var entry := EntryOf(records.value[0]);
      if IsInPlace(fs, effectiveUser, place) && IsInPlace(later, effectiveUser, place)
        && IsAbsentAt(fs, place.directory, entry.leaf) then Some(entry) else None
  }

  /** What the set pipeline accepts. */
  function ExpectedArtifactSet(fs: Fs, later: Fs, effectiveUser: nat, place: Place, raw: string): Option<seq<Entry>> {
    var records := PackagelistRecords(raw);
    if records.None? || records.value == [] || !AreDirect(place, records.value) then None
    else
      var entries := EntriesOf(records.value);
      if IsInPlace(fs, effectiveUser, place) && IsInPlace(later, effectiveUser, place)
        && AreDistinct(Leaves(entries)) && DoNotCollide(Leaves(entries))
        && AreAbsent(fs, place.directory, Leaves(entries)) then Some(entries) else None
  }

  method ValidatePackagelistOutput(fs: Fs, later: Fs, effectiveUser: nat, place: Place, raw: string)
    returns (expected: Option<Entry>)
    ensures expected == ExpectedArtifact(fs, later, effectiveUser, place, raw)
  {
    if !IsInPlace(fs, effectiveUser, place) {
      return None;
    }
    var records := ParsePackagelistRecords(raw);
    if records.None? || |records.value| != 1 {
      return None;
    }
    var candidate := PathOf(records.value[0]);
    if !IsDirectExpectedPath(place.path, candidate) {
      return None;
    }
    var leaf := Filename(candidate);
    if Lookup(fs, place.directory, leaf).Some? || Lookup(fs, place.directory, leaf + ".sig").Some? {
      return None;
    }
    if !IsInPlace(later, effectiveUser, place) {
      return None;
    }
    expected := Some(Entry(candidate, leaf));
  }

  lemma LeavesMore(entries: seq<Entry>, entry: Entry)
    ensures Leaves(entries + [entry]) == Leaves(entries) + [entry.leaf]
  {
  }

  ghost predicate IsIndexed(entries: seq<Entry>, artifacts: set<string>, signatures: set<string>) {
    && AreDistinct(Leaves(entries))
    && (forall leaf :: leaf in artifacts <==> leaf in Leaves(entries))
    && (forall leaf :: leaf in signatures <==> exists i | 0 <= i < |entries| :: leaf == SignatureOf(Leaves(entries)[i]))
  }

  lemma IndexMore(entries: seq<Entry>, artifacts: set<string>, signatures: set<string>, entry: Entry)
    requires IsIndexed(entries, artifacts, signatures) && entry.leaf !in artifacts
    ensures IsIndexed(entries + [entry], artifacts + {entry.leaf}, signatures + {SignatureOf(entry.leaf)})
  {
    var leaves, more := Leaves(entries), Leaves(entries + [entry]);
    LeavesMore(entries, entry);
    forall leaf ensures leaf in signatures + {SignatureOf(entry.leaf)} <==>
      exists i | 0 <= i < |more| :: leaf == SignatureOf(more[i])
    {
      if leaf in signatures {
        var i :| 0 <= i < |leaves| && leaf == SignatureOf(leaves[i]);
        assert leaf == SignatureOf(more[i]);
      } else if leaf == SignatureOf(entry.leaf) {
        assert leaf == SignatureOf(more[|leaves|]);
      }
    }
  }

  lemma RepeatedLeaf(records: seq<string>, i: nat, artifacts: set<string>, signatures: set<string>)
    requires i < |records| && IsIndexed(EntriesOf(records[..i]), artifacts, signatures)
    requires EntryOf(records[i]).leaf in artifacts
    ensures !AreDistinct(Leaves(EntriesOf(records)))
  {
    var before, all := Leaves(EntriesOf(records[..i])), Leaves(EntriesOf(records));
    var k :| 0 <= k < i && before[k] == EntryOf(records[i]).leaf;
    assert all[k] == all[i];
  }

  lemma EntriesMore(records: seq<string>, i: nat)
    requires i < |records|
    ensures EntriesOf(records[..i + 1]) == EntriesOf(records[..i]) + [EntryOf(records[i])]
  {
  }

  /** The first `i` records are direct, with different leaves. */
  ghost predicate HasEntries(
    place: Place, records: seq<string>, i: nat, collected: seq<Entry>, artifacts: set<string>, signatures: set<string>)
    requires i <= |records|
  {
    && collected == EntriesOf(records[..i])
    && (forall k | 0 <= k < i :: IsDirectExpectedPath(place.path, PathOf(records[k])))
    && IsIndexed(collected, artifacts, signatures)
  }

  lemma NextEntry(
    place: Place, records: seq<string>, i: nat, collected: seq<Entry>, artifacts: set<string>, signatures: set<string>,
    entry: Entry)
    requires i < |records| && HasEntries(place, records, i, collected, artifacts, signatures)
    requires entry == EntryOf(records[i]) && IsDirectExpectedPath(place.path, entry.path)
    ensures entry.leaf in artifacts ==> !AreDistinct(Leaves(EntriesOf(records)))
    ensures entry.leaf !in artifacts ==>
      HasEntries(
        place, records, i + 1, collected + [entry], artifacts + {entry.leaf}, signatures + {SignatureOf(entry.leaf)})
  {
    if entry.leaf in artifacts {
      RepeatedLeaf(records, i, artifacts, signatures);
    } else {
      IndexMore(collected, artifacts, signatures, entry);
      EntriesMore(records, i);
    }
  }

  lemma AllEntries(
    place: Place, records: seq<string>, collected: seq<Entry>, artifacts: set<string>, signatures: set<string>)
    requires HasEntries(place, records, |records|, collected, artifacts, signatures)
    ensures AreDirect(place, records) && collected == EntriesOf(records) && IsIndexed(collected, artifacts, signatures)
  {
    assert records[..|records|] == records;
  }

  method CollectEntries(place: Place, records: seq<string>)
    returns (entries: Option<seq<Entry>>, artifacts: set<string>, signatures: set<string>)
    ensures entries.Some? <==> AreDirect(place, records) && AreDistinct(Leaves(EntriesOf(records)))
    ensures entries.Some? ==> entries.value == EntriesOf(records) && IsIndexed(entries.value, artifacts, signatures)
  {
    var collected: seq<Entry> := [];
    artifacts, signatures := {}, {};
    for i := 0 to |records|
      invariant HasEntries(place, records, i, collected, artifacts, signatures)
    {
      var entry := EntryOf(records[i]);
      if !IsDirectExpectedPath(place.path, entry.path) {
        return None, artifacts, signatures;
      }
      NextEntry(place, records, i, collected, artifacts, signatures, entry);
      if entry.leaf in artifacts {
        return None, artifacts, signatures;
      }
      artifacts := artifacts + {entry.leaf};
      signatures := signatures + {SignatureOf(entry.leaf)};
      collected := collected + [entry];
    }
    AllEntries(place, records, collected, artifacts, signatures);
    entries := Some(collected);
  }

  lemma CollisionMeans(entries: seq<Entry>, artifacts: set<string>, signatures: set<string>)
    requires IsIndexed(entries, artifacts, signatures)
    ensures DoNotCollide(Leaves(entries)) <==> forall leaf | leaf in signatures :: leaf !in artifacts
  {
    var leaves := Leaves(entries);
    if forall leaf | leaf in signatures :: leaf !in artifacts {
      forall i, j | 0 <= i < |leaves| && 0 <= j < |leaves| ensures leaves[i] != SignatureOf(leaves[j]) {
        assert SignatureOf(leaves[j]) in signatures;
      }
    }
  }

  method CheckAbsent(fs: Fs, dir: Inode, entries: seq<Entry>) returns (ok: bool)
    ensures ok <==> AreAbsent(fs, dir, Leaves(entries))
  {
    for i := 0 to |entries|
      invariant forall k | 0 <= k < i :: IsAbsentAt(fs, dir, Leaves(entries)[k])
    {
      var leaf := entries[i].leaf;
      if Lookup(fs, dir, leaf).Some? || Lookup(fs, dir, SignatureOf(leaf)).Some? {
        assert !IsAbsentAt(fs, dir, Leaves(entries)[i]);
        return false;
      }
    }
    ok := true;
  }

  method ValidatePackagelistOutputSet(fs: Fs, later: Fs, effectiveUser: nat, place: Place, raw: string)
    returns (expected: Option<seq<Entry>>)
    ensures expected == ExpectedArtifactSet(fs, later, effectiveUser, place, raw)
  {
    if !IsInPlace(fs, effectiveUser, place) {
      return None;
    }
    var records := ParsePackagelistRecords(raw);
    if records.None? || records.value == [] {
      return None;
    }
    var entries, artifacts, signatures := CollectEntries(place, records.value);
    if entries.None? {
      return None;
    }
    CollisionMeans(entries.value, artifacts, signatures);
    if exists leaf | leaf in signatures :: leaf in artifacts {
      return None;
    }
    var absent := CheckAbsent(fs, place.directory, entries.value);
    if !absent || !IsInPlace(later, effectiveUser, place) {
      return None;
    }
    expected := entries;
  }

  // ----- both pipelines -----

  lemma SuffixDiffers(leaf: string)
    ensures leaf != SignatureOf(leaf)
  {
    assert |SignatureOf(leaf)| == |leaf| + 4;
  }

  /** For one record both pipelines accept the same outputs, and agree on the entry. */
  lemma SingleRecordAgrees(fs: Fs, later: Fs, effectiveUser: nat, place: Place, raw: string)
    requires PackagelistRecords(raw).Some? ==> |PackagelistRecords(raw).value| == 1
    ensures ExpectedArtifact(fs, later, effectiveUser, place, raw).Some? <==>
      ExpectedArtifactSet(fs, later, effectiveUser, place, raw).Some?
    ensures ExpectedArtifact(fs, later, effectiveUser, place, raw).Some? ==>
      ExpectedArtifactSet(fs, later, effectiveUser, place, raw).value
        == [ExpectedArtifact(fs, later, effectiveUser, place, raw).value]
  {
    if PackagelistRecords(raw).Some? {
      var leaves := Leaves(EntriesOf(PackagelistRecords(raw).value));
      SuffixDiffers(leaves[0]);
    }
  }

  /** What every later guard asks of an expected set. */
  ghost predicate IsSoundSet(place: Place, entries: seq<Entry>) {
    && entries != []
    && (forall i | 0 <= i < |entries| ::
          entries[i].leaf != "" && entries[i].path == Path(true, place.path + [entries[i].leaf], false))
    && AreDistinct(Leaves(entries)) && DoNotCollide(Leaves(entries))
  }

  lemma AcceptedSetIsSound(fs: Fs, later: Fs, effectiveUser: nat, place: Place, raw: string)
    requires AreComponents(place.path) && ExpectedArtifactSet(fs, later, effectiveUser, place, raw).Some?
    ensures IsSoundSet(place, ExpectedArtifactSet(fs, later, effectiveUser, place, raw).value)
  {
    var records := PackagelistRecords(raw).value;
    forall i | 0 <= i < |records|
      ensures var e := EntryOf(records[i]); e.leaf != "" && e.path == Path(true, place.path + [e.leaf], false)
    {
      DirectMeans(place.path, records[i]);
      var leaf :| leaf != "" && PathOf(records[i]) == Path(true, place.path + [leaf], false);
      assert EntryOf(records[i]).leaf == leaf;
    }
  }

  /** Different records can still be one path, and then the set is refused. */
  lemma TwoSpellingsAreRefused(fs: Fs, later: Fs, effectiveUser: nat, place: Place, raw: string, i: nat, j: nat)
    requires PackagelistRecords(raw).Some? && i < j < |PackagelistRecords(raw).value|
    requires PathOf(PackagelistRecords(raw).value[i]) == PathOf(PackagelistRecords(raw).value[j])
    ensures ExpectedArtifactSet(fs, later, effectiveUser, place, raw).None?
  {
    var leaves := Leaves(EntriesOf(PackagelistRecords(raw).value));
    assert leaves[i] == leaves[j];
  }
}
