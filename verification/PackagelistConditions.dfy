/**
 What a packagelist must say to be accepted, told from the characters of its text, the
 spelling of its paths and what their names denote in the workspace.
 */
module PackagelistConditions {
  import opened Wrappers
  import opened TextLists
  import opened Paths
  import opened FileSystem
  import opened FileSystemView
  import opened ExpectedArtifacts
  import CleanupConditions

  // ----- records -----

  /** Newlines but no other control character. */
  ghost predicate IsClean(raw: string) {
    forall i | 0 <= i < |raw| :: var code := raw[i] as int; code == 10 || (code >= 32 && code != 127)
  }

  /** The line holds something else than spaces and tabs. */
  ghost predicate SaysSomething(line: string) {
    exists i | 0 <= i < |line| :: line[i] as int != 32 && line[i] as int != 9
  }

  ghost predicate AreLinesOf(raw: string, lines: seq<string>) {
    && |lines| > 0 && raw == Join(lines, '\n')
    && forall line | line in lines :: forall i | 0 <= i < |line| :: line[i] as int != 10
  }

  /** The records are the lines at these places, which are those that say something. */
  ghost predicate AreRecordsAt(lines: seq<string>, places: seq<nat>, records: seq<string>) {
    && |places| == |records|
    && (forall i, j | 0 <= i < j < |places| :: places[i] < places[j])
    && (forall n: nat :: n in places <==> n < |lines| && SaysSomething(lines[n]))
    && forall i | 0 <= i < |places| :: places[i] < |lines| && records[i] == lines[places[i]]
  }

  lemma BlankMeans(line: string)
    ensures SaysSomething(line) <==> !IsBlank(line)
  {
    if !IsBlank(line) {
      var i :| 0 <= i < |line| && line[i] != ' ' && line[i] != '\t';
      assert line[i] as int != 32 && line[i] as int != 9;
    }
  }

  lemma CleanMeans(raw: string)
    ensures IsControlFree(raw) <==> IsClean(raw)
  {
  }

  lemma PlacesMore(lines: seq<string>, line: string, places: seq<nat>, records: seq<string>)
    requires AreRecordsAt(lines, places, records) && SaysSomething(line)
    ensures AreRecordsAt(lines + [line], places + [|lines|], records + [line])
  {
    forall i | 0 <= i < |places| ensures places[i] < |lines| {
    }
    var all := lines + [line];
    forall n: nat ensures n in places + [|lines|] <==> n < |all| && SaysSomething(all[n]) {
      assert n < |lines| ==> all[n] == lines[n];
      assert n == |lines| ==> n in places + [|lines|];
    }
  }

  lemma PlacesSame(lines: seq<string>, line: string, places: seq<nat>, records: seq<string>)
    requires AreRecordsAt(lines, places, records) && !SaysSomething(line)
    ensures AreRecordsAt(lines + [line], places, records)
  {
    var all := lines + [line];
    forall n: nat ensures n in places <==> n < |all| && SaysSomething(all[n]) {
      assert n < |lines| ==> all[n] == lines[n];
    }
  }

  lemma {:induction false} NonBlankAt(lines: seq<string>) returns (places: seq<nat>)
    ensures AreRecordsAt(lines, places, NonBlank(lines))
  {
    if lines == [] {
      places := [];
    } else {
      var most, line := lines[..|lines| - 1], lines[|lines| - 1];
      places := NonBlankAt(most);
      BlankMeans(line);
      assert lines == most + [line];
      if SaysSomething(line) {
        PlacesMore(most, line, places, NonBlank(most));
        places := places + [|most|];
      } else {
        PlacesSame(most, line, places, NonBlank(most));
        assert NonBlank(most) + [] == NonBlank(most);
      }
    }
  }

  lemma HoldsItsFirst(places: seq<nat>)
    ensures places == [] || places[0] in places
  {
  }

  /** Ascending lists of the same places are the same. */
  lemma {:induction false} SamePlaces(a: seq<nat>, b: seq<nat>)
    requires forall i, j | 0 <= i < j < |a| :: a[i] < a[j]
    requires forall i, j | 0 <= i < j < |b| :: b[i] < b[j]
    requires forall n: nat :: n in a <==> n in b
    ensures a == b
  {
    HoldsItsFirst(a);
    HoldsItsFirst(b);
    if a != [] {
      var x, y := a[1..], b[1..];
      assert a[0] == b[0] && a == [a[0]] + x && b == [b[0]] + y;
      forall n: nat ensures n in x <==> n in y {
        assert n in x <==> n in a && n != a[0];
        assert n in y <==> n in b && n != b[0];
      }
      SamePlaces(x, y);
    }
  }

  lemma RecordsAtAreNonBlank(lines: seq<string>, places: seq<nat>, records: seq<string>)
    requires AreRecordsAt(lines, places, records)
    ensures records == NonBlank(lines)
  {
    var others := NonBlankAt(lines);
    SamePlaces(places, others);
  }

  /** A packagelist has records exactly when it is clean and they differ; they are, in
      order, its lines that say something. */
  ghost predicate Records(raw: string, records: seq<string>) {
    && IsClean(raw) && (forall i, j | 0 <= i < j < |records| :: records[i] != records[j])
    && exists lines, places :: AreLinesOf(raw, lines) && AreRecordsAt(lines, places, records)
  }

  lemma LinesAreSplit(raw: string, lines: seq<string>)
    ensures AreLinesOf(raw, lines) <==> lines == Split(raw, '\n')
  {
    JoinSplit(raw, '\n');
    if AreLinesOf(raw, lines) {
      forall line | line in lines ensures Free(line, '\n') {
        assert forall i | 0 <= i < |line| :: line[i] != '\n';
      }
      SplitJoin(lines, '\n');
    }
    if lines == Split(raw, '\n') {
      forall line | line in lines ensures forall i | 0 <= i < |line| :: line[i] as int != 10 {
        assert Free(line, '\n');
        forall i | 0 <= i < |line| ensures line[i] as int != 10 {
          assert line[i] in line;
        }
      }
    }
  }

  lemma RecordsMean(raw: string, records: seq<string>)
    ensures PackagelistRecords(raw) == Some(records) <==> Records(raw, records)
  {
    CleanMeans(raw);
    var lines := Split(raw, '\n');
    LinesAreSplit(raw, lines);
    var places := NonBlankAt(lines);
    if Records(raw, records) {
      var others, at :| AreLinesOf(raw, others) && AreRecordsAt(others, at, records);
      LinesAreSplit(raw, others);
      RecordsAtAreNonBlank(lines, at, records);
    }
  }

  // ----- spellings of paths -----

  /** A name as a path may hold it: not empty and without slashes. */
  ghost predicate IsPart(part: string) {
    |part| > 0 && forall i | 0 <= i < |part| :: part[i] as int != 47
  }

  ghost predicate AreParts(parts: seq<string>) {
    forall part | part in parts :: IsPart(part)
  }

  /** Every part after one slash or more, and nothing behind the last. */
  ghost predicate Spells(text: string, parts: seq<string>)
    decreases |parts|
  {
    if parts == [] then text == ""
    else exists k: nat | 0 < k && k + |parts[0]| <= |text| :: SpellsFirst(text, parts, k)
  }

  ghost predicate SpellsFirst(text: string, parts: seq<string>, k: nat)
    requires parts != [] && k + |parts[0]| <= |text|
    decreases |parts|, 0
  {
    && (forall i | 0 <= i < k :: text[i] as int == 47)
    && text[k..k + |parts[0]|] == parts[0] && Spells(text[k + |parts[0]|..], parts[1..])
  }

  ghost function Names(text: string): seq<string> {
    NonEmpty(Split(text, '/'))
  }

  lemma NamesAfterSlash(text: string)
    ensures Names("/" + text) == Names(text)
  {
    var parts := Split(text, '/');
    JoinSplit(text, '/');
    JoinHead("", parts, '/');
    assert "" + ['/'] + text == "/" + text;
    SplitAlso([""] + parts);
    NonEmptySkips(parts);
  }

  lemma SplitAlso(parts: seq<string>)
    requires parts != [] && forall p | p in parts :: Free(p, '/')
    ensures Split(Join(parts, '/'), '/') == parts
  {
    SplitJoin(parts, '/');
  }

  lemma PartIsFree(part: string)
    ensures IsPart(part) <==> part != "" && Free(part, '/')
  {
    if part != "" && Free(part, '/') {
      forall i | 0 <= i < |part| ensures part[i] as int != 47 {
        assert part[i] in part;
      }
    }
    if IsPart(part) {
      assert forall i | 0 <= i < |part| :: part[i] != '/';
    }
  }

  lemma NamesOfPart(part: string, rest: string)
    requires IsPart(part) && (rest == "" || rest[0] == '/')
    ensures Names(part + rest) == [part] + Names(rest)
  {
    PartIsFree(part);
    if rest == "" {
      SplitJoin([part], '/');
      SplitJoin([""], '/');
      assert part + rest == part && NonEmpty([""]) == [] + NonEmpty([""][1..]);
      assert NonEmpty([part]) == [part] + NonEmpty([part][1..]);
    } else {
      var tail := rest[1..];
      var parts := Split(tail, '/');
      JoinSplit(tail, '/');
      JoinHead(part, parts, '/');
      assert part + ['/'] + tail == part + rest && "/" + tail == rest;
      SplitAlso([part] + parts);
      NamesAfterSlash(tail);
      assert ([part] + parts)[1..] == parts;
    }
  }

  lemma {:induction false} NamesSkipSlashes(text: string, k: nat)
    requires k <= |text| && forall i | 0 <= i < k :: text[i] as int == 47
    ensures Names(text) == Names(text[k..])
  {
    if k > 0 {
      assert text[0] == '/' && text == "/" + text[1..];
      NamesAfterSlash(text[1..]);
      NamesSkipSlashes(text[1..], k - 1);
      assert text[1..][k - 1..] == text[k..];
    } else {
      assert text[0..] == text;
    }
  }

  /** Begins with a slash and does not end with one. */
  ghost predicate IsOpenedOnly(text: string) {
    text == "" || (text[0] == '/' && text[|text| - 1] != '/')
  }

  lemma FirstPart(text: string, parts: seq<string>, k: nat)
    requires parts != [] && IsPart(parts[0]) && 0 < k && k + |parts[0]| <= |text| && SpellsFirst(text, parts, k)
    requires var rest := text[k + |parts[0]|..]; Names(rest) == parts[1..] && IsOpenedOnly(rest)
    ensures Names(text) == parts && IsOpenedOnly(text)
  {
    var part := parts[0];
    var rest := text[k + |part|..];
    NamesSkipSlashes(text, k);
    assert text[k..] == part + rest;
    NamesOfPart(part, rest);
    assert text[0] == '/';
    if rest == "" {
      assert text[|text| - 1] == part[|part| - 1];
      assert part[|part| - 1] as int != 47;
    } else {
      assert text[|text| - 1] == rest[|rest| - 1];
    }
  }

  lemma {:induction false} SpeltHasNames(text: string, parts: seq<string>)
    requires AreParts(parts) && Spells(text, parts)
    ensures Names(text) == parts && IsOpenedOnly(text)
    decreases |parts|
  {
    if parts == [] {
      SplitJoin([""], '/');
      assert NonEmpty([""]) == [] + NonEmpty([""][1..]);
    } else {
      var k: nat :| 0 < k && k + |parts[0]| <= |text| && SpellsFirst(text, parts, k);
      assert parts[0] in parts;
      SpeltHasNames(text[k + |parts[0]|..], parts[1..]);
      FirstPart(text, parts, k);
    }
  }

  lemma {:induction false} LeadingSlashes(text: string) returns (k: nat)
    requires text != "" && text[|text| - 1] != '/'
    ensures k < |text| && text[k] != '/' && forall i | 0 <= i < k :: text[i] as int == 47
  {
    if text[0] != '/' {
      k := 0;
    } else {
      var n := LeadingSlashes(text[1..]);
      k := n + 1;
      forall i | 0 <= i < k ensures text[i] as int == 47 {
        assert i > 0 ==> text[i] == text[1..][i - 1];
      }
    }
  }

  lemma PartUpTo(text: string, k: nat) returns (end: nat)
    requires k < |text| && text[k] != '/'
    ensures k < end <= |text| && IsPart(text[k..end]) && (end < |text| ==> text[end] == '/')
  {
    FindStops(text, '/', k);
    end := Find(text, '/', k);
    PartIsFree(text[k..end]);
  }

  lemma {:induction false} NamesAreSpelt(text: string)
    requires IsOpenedOnly(text)
    ensures AreParts(Names(text)) && Spells(text, Names(text))
    decreases |text|
  {
    if text == "" {
      SplitJoin([""], '/');
      assert NonEmpty([""]) == [] + NonEmpty([""][1..]);
    } else {
      var k := LeadingSlashes(text);
      var end := PartUpTo(text, k);
      var part, rest := text[k..end], text[end..];
      NamesAreSpelt(rest);
      NamesSkipSlashes(text, k);
      assert text[k..] == part + rest;
      NamesOfPart(part, rest);
      var parts := Names(text);
      assert parts[0] == part && parts[1..] == Names(rest);
      assert SpellsFirst(text, parts, k);
    }
  }

  lemma PathSpelt(text: string, parts: seq<string>)
    requires parts != [] && AreParts(parts)
    ensures PathOf(text) == Path(true, parts, false) <==> Spells(text, parts)
  {
    if PathOf(text) == Path(true, parts, false) {
      NamesAreSpelt(text);
    }
    if Spells(text, parts) {
      SpeltHasNames(text, parts);
    }
  }

  ghost predicate IsLeaf(leaf: string) {
    IsPart(leaf) && leaf != "." && leaf != ".."
  }

  /** A path is direct exactly when it spells the workspace and one more name. */
  lemma DirectSpelt(workspace: seq<string>, text: string)
    requires AreComponents(workspace)
    ensures IsDirectExpectedPath(workspace, PathOf(text)) <==>
      exists leaf :: IsLeaf(leaf) && Spells(text, workspace + [leaf])
  {
    DirectMeans(workspace, text);
    ComponentsFree(workspace);
    forall part | part in workspace ensures IsPart(part) {
      PartIsFree(part);
    }
    if IsDirectExpectedPath(workspace, PathOf(text)) {
      var leaf :| leaf != "" && leaf != "." && leaf != ".." && PathOf(text) == Path(true, workspace + [leaf], false);
      NamesAreSpelt(text);
      assert leaf == (workspace + [leaf])[|workspace|] && leaf in Names(text);
      assert Spells(text, workspace + [leaf]);
    }
    if leaf :| IsLeaf(leaf) && Spells(text, workspace + [leaf]) {
      PathSpelt(text, workspace + [leaf]);
    }
  }

  lemma SpeltEntry(workspace: seq<string>, text: string, leaf: string)
    requires AreComponents(workspace) && IsLeaf(leaf) && Spells(text, workspace + [leaf])
    ensures EntryOf(text) == Entry(Path(true, workspace + [leaf], false), leaf)
  {
    ComponentsFree(workspace);
    forall part | part in workspace + [leaf] ensures IsPart(part) {
      PartIsFree(part);
    }
    PathSpelt(text, workspace + [leaf]);
  }

  // ----- what is accepted -----

  /** Each record spells the workspace and its leaf. */
  ghost predicate SpellLeaves(workspace: seq<string>, records: seq<string>, leaves: seq<string>) {
    && |leaves| == |records|
    && forall i | 0 <= i < |leaves| :: IsLeaf(leaves[i]) && Spells(records[i], workspace + [leaves[i]])
  }

  ghost predicate IsOwnPlace(fs: Fs, effectiveUser: nat, place: Place) {
    && place.owner == effectiveUser
    && CleanupConditions.IsWorkspaceAt(fs, place.root, place.name, place.directory, place.owner)
  }

  /** Neither the artifact nor its signature is there. */
  ghost predicate IsMissing(fs: Fs, dir: Inode, leaf: string) {
    DenotesNothing(fs, dir, leaf) && DenotesNothing(fs, dir, leaf + ".sig")
  }

  /** What both pipelines ask for. */
  ghost predicate Announces(
    fs: Fs, later: Fs, effectiveUser: nat, place: Place, raw: string, leaves: seq<string>)
  {
    && IsOwnPlace(fs, effectiveUser, place) && IsOwnPlace(later, effectiveUser, place) && |leaves| > 0
    && (exists records :: Records(raw, records) && SpellLeaves(place.path, records, leaves))
    && (forall i, j | 0 <= i < j < |leaves| :: leaves[i] != leaves[j])
    && (forall leaf, other | leaf in leaves && other in leaves :: leaf != other + ".sig")
    && forall leaf | leaf in leaves :: IsMissing(fs, place.directory, leaf)
  }

  lemma OwnPlaceMeans(fs: Fs, effectiveUser: nat, place: Place)
    ensures IsInPlace(fs, effectiveUser, place) <==> IsOwnPlace(fs, effectiveUser, place)
  {
    CleanupConditions.InPlaceMeans(fs, place.root, place.name, place.directory, place.owner);
  }

  lemma AbsentMeans(fs: Fs, dir: Inode, leaf: string)
    ensures IsAbsentAt(fs, dir, leaf) <==> IsMissing(fs, dir, leaf)
  {
    LookupDenotes(fs, dir, leaf);
    LookupDenotes(fs, dir, leaf + ".sig");
  }

  lemma LeavesSpelt(workspace: seq<string>, records: seq<string>, leaves: seq<string>)
    requires AreComponents(workspace) && SpellLeaves(workspace, records, leaves)
    ensures forall i | 0 <= i < |records| :: IsDirectExpectedPath(workspace, PathOf(records[i]))
    ensures Leaves(EntriesOf(records)) == leaves
    ensures forall i | 0 <= i < |records| ::
      EntryOf(records[i]) == Entry(Path(true, workspace + [leaves[i]], false), leaves[i])
  {
    forall i | 0 <= i < |records|
      ensures IsDirectExpectedPath(workspace, PathOf(records[i]))
      ensures EntryOf(records[i]) == Entry(Path(true, workspace + [leaves[i]], false), leaves[i])
    {
      assert Spells(records[i], workspace + [leaves[i]]);
      DirectSpelt(workspace, records[i]);
      SpeltEntry(workspace, records[i], leaves[i]);
    }
  }

  lemma DirectAreSpelt(place: Place, records: seq<string>)
    requires AreComponents(place.path) && AreDirect(place, records)
    ensures SpellLeaves(place.path, records, Leaves(EntriesOf(records)))
  {
    var leaves := Leaves(EntriesOf(records));
    forall i | 0 <= i < |records| ensures IsLeaf(leaves[i]) && Spells(records[i], place.path + [leaves[i]]) {
      DirectSpelt(place.path, records[i]);
      var leaf :| IsLeaf(leaf) && Spells(records[i], place.path + [leaf]);
      SpeltEntry(place.path, records[i], leaf);
    }
  }

  lemma NamesApartMean(leaves: seq<string>)
    ensures DoNotCollide(leaves) <==>
      forall leaf, other | leaf in leaves && other in leaves :: leaf != other + ".sig"
  {
    if forall leaf, other | leaf in leaves && other in leaves :: leaf != other + ".sig" {
      forall i, j | 0 <= i < |leaves| && 0 <= j < |leaves| ensures leaves[i] != SignatureOf(leaves[j]) {
        assert leaves[i] in leaves && leaves[j] in leaves;
      }
    }
  }

  lemma AllAbsentMeans(fs: Fs, dir: Inode, leaves: seq<string>)
    ensures AreAbsent(fs, dir, leaves) <==> forall leaf | leaf in leaves :: IsMissing(fs, dir, leaf)
  {
    forall i | 0 <= i < |leaves| ensures IsAbsentAt(fs, dir, leaves[i]) <==> IsMissing(fs, dir, leaves[i]) {
      AbsentMeans(fs, dir, leaves[i]);
    }
    if forall leaf | leaf in leaves :: IsMissing(fs, dir, leaf) {
      forall i | 0 <= i < |leaves| ensures IsAbsentAt(fs, dir, leaves[i]) {
        assert leaves[i] in leaves;
      }
    }
  }

  /** The set is accepted with exactly these leaves, each with its path below the
      workspace. */
  lemma SetMeans(fs: Fs, later: Fs, effectiveUser: nat, place: Place, raw: string, leaves: seq<string>)
    requires AreComponents(place.path)
    ensures var r := ExpectedArtifactSet(fs, later, effectiveUser, place, raw);
      && (Announces(fs, later, effectiveUser, place, raw, leaves) <==> r.Some? && Leaves(r.value) == leaves)
      && (r.Some? ==>
            forall i | 0 <= i < |r.value| ::
              r.value[i].path == Path(true, place.path + [r.value[i].leaf], false))
  {
    OwnPlaceMeans(fs, effectiveUser, place);
    OwnPlaceMeans(later, effectiveUser, place);
    NamesApartMean(leaves);
    AllAbsentMeans(fs, place.directory, leaves);
    var r := ExpectedArtifactSet(fs, later, effectiveUser, place, raw);
    if r.Some? {
      AcceptedSetIsSound(fs, later, effectiveUser, place, raw);
      AcceptedAnnounces(fs, later, effectiveUser, place, raw);
    }
    if Announces(fs, later, effectiveUser, place, raw, leaves) {
      AnnouncedIsAccepted(fs, later, effectiveUser, place, raw, leaves);
    }
  }

  lemma AcceptedAnnounces(fs: Fs, later: Fs, effectiveUser: nat, place: Place, raw: string)
    requires AreComponents(place.path) && ExpectedArtifactSet(fs, later, effectiveUser, place, raw).Some?
    ensures Announces(
      fs, later, effectiveUser, place, raw, Leaves(ExpectedArtifactSet(fs, later, effectiveUser, place, raw).value))
  {
    var records := PackagelistRecords(raw).value;
    var leaves := Leaves(EntriesOf(records));
    RecordsMean(raw, records);
    DirectAreSpelt(place, records);
    OwnPlaceMeans(fs, effectiveUser, place);
    OwnPlaceMeans(later, effectiveUser, place);
    NamesApartMean(leaves);
    AllAbsentMeans(fs, place.directory, leaves);
  }

  /** The text's records are direct and have these leaves. */
  ghost predicate HasLeaves(place: Place, raw: string, leaves: seq<string>) {
    && PackagelistRecords(raw).Some? && AreDirect(place, PackagelistRecords(raw).value)
    && Leaves(EntriesOf(PackagelistRecords(raw).value)) == leaves
  }

  lemma SpeltHasLeaves(place: Place, raw: string, records: seq<string>, leaves: seq<string>)
    requires AreComponents(place.path) && Records(raw, records) && SpellLeaves(place.path, records, leaves)
    ensures HasLeaves(place, raw, leaves)
  {
    RecordsMean(raw, records);
    LeavesSpelt(place.path, records, leaves);
  }

  lemma AcceptedByLeaves(fs: Fs, later: Fs, effectiveUser: nat, place: Place, raw: string, leaves: seq<string>)
    requires HasLeaves(place, raw, leaves) && leaves != []
    requires IsInPlace(fs, effectiveUser, place) && IsInPlace(later, effectiveUser, place)
    requires AreDistinct(leaves) && DoNotCollide(leaves) && AreAbsent(fs, place.directory, leaves)
    ensures var r := ExpectedArtifactSet(fs, later, effectiveUser, place, raw);
      r.Some? && Leaves(r.value) == leaves
  {
  }

  lemma AnnouncedIsAccepted(
    fs: Fs, later: Fs, effectiveUser: nat, place: Place, raw: string, leaves: seq<string>)
    requires AreComponents(place.path) && Announces(fs, later, effectiveUser, place, raw, leaves)
    ensures var r := ExpectedArtifactSet(fs, later, effectiveUser, place, raw);
      r.Some? && Leaves(r.value) == leaves
  {
    var records :| Records(raw, records) && SpellLeaves(place.path, records, leaves);
    SpeltHasLeaves(place, raw, records, leaves);
    OwnPlaceMeans(fs, effectiveUser, place);
    OwnPlaceMeans(later, effectiveUser, place);
    NamesApartMean(leaves);
    AllAbsentMeans(fs, place.directory, leaves);
    AcceptedByLeaves(fs, later, effectiveUser, place, raw, leaves);
  }

  lemma SingleIsOneOfSet(fs: Fs, later: Fs, effectiveUser: nat, place: Place, raw: string, leaf: string)
    ensures var one, several :=
        ExpectedArtifact(fs, later, effectiveUser, place, raw),
        ExpectedArtifactSet(fs, later, effectiveUser, place, raw);
      && (one.Some? ==> several == Some([one.value]))
      && (one.Some? && one.value.leaf == leaf <==> several.Some? && Leaves(several.value) == [leaf])
  {
    var one := ExpectedArtifact(fs, later, effectiveUser, place, raw);
    var several := ExpectedArtifactSet(fs, later, effectiveUser, place, raw);
    if PackagelistRecords(raw).Some? && |PackagelistRecords(raw).value| == 1 {
      SingleRecordAgrees(fs, later, effectiveUser, place, raw);
      assert one.Some? ==> Leaves([one.value]) == [one.value.leaf];
    } else if several.Some? {
      assert |Leaves(several.value)| != 1;
    }
  }

  /** The single pipeline accepts exactly what announces one leaf. */
  lemma SingleMeans(fs: Fs, later: Fs, effectiveUser: nat, place: Place, raw: string, leaf: string)
    requires AreComponents(place.path)
    ensures var r := ExpectedArtifact(fs, later, effectiveUser, place, raw);
      && (Announces(fs, later, effectiveUser, place, raw, [leaf]) <==> r.Some? && r.value.leaf == leaf)
      && (r.Some? ==> r.value.path == Path(true, place.path + [r.value.leaf], false))
  {
    SetMeans(fs, later, effectiveUser, place, raw, [leaf]);
    SingleIsOneOfSet(fs, later, effectiveUser, place, raw, leaf);
  }
}
