/** Splitting and joining text at a separator, and decimal numbers. */
module TextLists {
  import opened Wrappers

  /** The first position of `c` at or after `start`, or the end of the text. */
  function Find(text: string, c: char, start: nat): (r: nat)
    requires start <= |text|
    ensures start <= r <= |text|
    decreases |text| - start
  {
    if start == |text| || text[start] == c then start else Find(text, c, start + 1)
  }

  /** The pieces between separators from `start` on; always at least one. */
  function Pieces(text: string, c: char, start: nat): (r: seq<string>)
    requires start <= |text|
    ensures r != []
    decreases |text| - start
  {
    var end := Find(text, c, start);
    if end == |text| then [text[start..end]] else [text[start..end]] + Pieces(text, c, end + 1)
  }

  function Split(text: string, c: char): (r: seq<string>)
    ensures r != []
  {
    Pieces(text, c, 0)
  }

  function Join(parts: seq<string>, c: char): string {
    if parts == [] then ""
    else if |parts| == 1 then parts[0]
    else parts[0] + [c] + Join(parts[1..], c)
  }

  ghost predicate Free(text: string, c: char) {
    c !in text
  }

  lemma {:induction false} FindStops(text: string, c: char, start: nat)
    requires start <= |text|
    ensures var end := Find(text, c, start); Free(text[start..end], c) && (end < |text| ==> text[end] == c)
    decreases |text| - start
  {
    if start < |text| && text[start] != c {
      FindStops(text, c, start + 1);
      var end := Find(text, c, start);
      assert text[start..end] == [text[start]] + text[start + 1..end];
    }
  }

  lemma {:induction false} FindFinds(text: string, c: char, start: nat, at: nat)
    requires start <= at < |text| && text[at] == c
    ensures Find(text, c, start) <= at
    decreases at - start
  {
    if start < at {
      FindFinds(text, c, start + 1, at);
    }
  }

  lemma {:induction false} FindIs(text: string, c: char, start: nat, end: nat)
    requires start <= end <= |text| && (end < |text| ==> text[end] == c)
    requires forall k | start <= k < end :: text[k] != c
    ensures Find(text, c, start) == end
    decreases end - start
  {
    if start < end {
      FindIs(text, c, start + 1, end);
    }
  }

  lemma FoundAfterHead(text: string, start: nat, head: string, after: string, c: char)
    requires start <= |text| && text[start..] == head + after && Free(head, c) && (after != "" ==> after[0] == c)
    ensures Find(text, c, start) == start + |head|
  {
    var end := start + |head|;
    forall k | start <= k < end ensures text[k] != c {
      assert text[k] == text[start..][k - start] == head[k - start];
    }
    if end < |text| {
      assert text[end] == text[start..][|head|] == after[0];
    }
    FindIs(text, c, start, end);
  }

  lemma HeadAndAfter(text: string, start: nat, head: string, after: string)
    requires start <= |text| && text[start..] == head + after
    ensures start + |head| + |after| == |text|
    ensures text[start..start + |head|] == head && text[start + |head|..] == after
  {
    assert text[start..start + |head|] == text[start..][..|head|];
    assert text[start + |head|..] == text[start..][|head|..];
  }

  /** The piece at `start`, and where the next one begins. */
  lemma PieceAt(text: string, start: nat, head: string, after: string, c: char)
    requires start <= |text| && text[start..] == head + after && Free(head, c) && (after != "" ==> after[0] == c)
    ensures after == "" ==> Pieces(text, c, start) == [head]
    ensures after != "" ==>
      && start + |head| + 1 <= |text| && text[start + |head| + 1..] == after[1..]
      && Pieces(text, c, start) == [head] + Pieces(text, c, start + |head| + 1)
  {
    FoundAfterHead(text, start, head, after, c);
    HeadAndAfter(text, start, head, after);
    if after != "" {
      assert text[start + |head| + 1..] == text[start + |head|..][1..];
    }
  }

  lemma {:induction false} PiecesOfJoin(text: string, start: nat, parts: seq<string>, c: char)
    requires start <= |text| && text[start..] == Join(parts, c)
    requires parts != [] && forall p | p in parts :: Free(p, c)
    ensures Pieces(text, c, start) == parts
    decreases |parts|
  {
    var head, tail := parts[0], parts[1..];
    var after := AfterFirst(tail, c);
    assert head in parts;
    FirstAndAfter(parts, c);
    PieceAt(text, start, head, after, c);
    if tail != [] {
      AfterFirstIs(tail, c);
      PiecesOfJoin(text, start + |head| + 1, tail, c);
    }
  }

  /** What follows the first part in a join. */
  ghost function AfterFirst(tail: seq<string>, c: char): string {
    if tail == [] then "" else [c] + Join(tail, c)
  }

  lemma AfterFirstIs(tail: seq<string>, c: char)
    requires tail != []
    ensures AfterFirst(tail, c) != "" && AfterFirst(tail, c)[1..] == Join(tail, c)
  {
  }

  lemma FirstAndAfter(parts: seq<string>, c: char)
    requires parts != []
    ensures Join(parts, c) == parts[0] + AfterFirst(parts[1..], c)
    ensures parts == [parts[0]] + parts[1..]
    ensures AfterFirst(parts[1..], c) != "" ==> AfterFirst(parts[1..], c)[0] == c
  {
    assert |parts| == 1 ==> parts[0] + "" == parts[0];
    assert |parts| > 1 ==> parts[0] + [c] + Join(parts[1..], c) == parts[0] + ([c] + Join(parts[1..], c));
  }

  lemma SplitJoin(parts: seq<string>, c: char)
    requires parts != [] && forall p | p in parts :: Free(p, c)
    ensures Split(Join(parts, c), c) == parts
  {
    assert Join(parts, c)[0..] == Join(parts, c);
    PiecesOfJoin(Join(parts, c), 0, parts, c);
  }

  lemma {:induction false} JoinPieces(text: string, c: char, start: nat)
    requires start <= |text|
    ensures Join(Pieces(text, c, start), c) == text[start..]
    ensures forall p | p in Pieces(text, c, start) :: Free(p, c)
    decreases |text| - start
  {
    var end := Find(text, c, start);
    FindStops(text, c, start);
    if end < |text| {
      JoinPieces(text, c, end + 1);
      var rest := Pieces(text, c, end + 1);
      JoinHead(text[start..end], rest, c);
      assert text[start..] == text[start..end] + [c] + text[end + 1..];
    } else {
      assert text[start..end] == text[start..];
    }
  }

  lemma JoinHead(head: string, rest: seq<string>, c: char)
    requires rest != []
    ensures Join([head] + rest, c) == head + [c] + Join(rest, c)
  {
    assert ([head] + rest)[1..] == rest;
  }

  lemma JoinSplit(text: string, c: char)
    ensures Join(Split(text, c), c) == text
    ensures forall p | p in Split(text, c) :: Free(p, c)
  {
    JoinPieces(text, c, 0);
  }

  // ----- lines -----

  /** The lines from `start` on; a final newline ends the last line. */
  function LinesFrom(text: string, start: nat): seq<string>
    requires start <= |text|
    decreases |text| - start
  {
    if start == |text| then []
    else
      var newline := Find(text, '\n', start);
      [text[start..newline]] + (if newline == |text| then [] else LinesFrom(text, newline + 1))
  }

  function DropEmptyLast(pieces: seq<string>): seq<string>
    requires pieces != []
  {
    if pieces[|pieces| - 1] == "" then pieces[..|pieces| - 1] else pieces
  }

  lemma DropAfterHead(head: string, rest: seq<string>)
    requires rest != []
    ensures DropEmptyLast([head] + rest) == [head] + DropEmptyLast(rest)
  {
    assert ([head] + rest)[..|rest|] == [head] + rest[..|rest| - 1];
  }

  /** The lines are the pieces but for an empty last one. */
  ghost predicate AreLines(text: string, start: nat) {
    start <= |text| && LinesFrom(text, start) == DropEmptyLast(Pieces(text, '\n', start))
  }

  /** The line at `start`, and where the next one begins. */
  ghost predicate HasLine(text: string, start: nat, line: string, next: nat) {
    && start <= |text| && next <= |text|
    && LinesFrom(text, start) == [line] + LinesFrom(text, next)
    && Pieces(text, '\n', start) == [line] + Pieces(text, '\n', next)
  }

  lemma LinesGrow(line: string, moreLines: seq<string>, morePieces: seq<string>)
    requires morePieces != [] && moreLines == DropEmptyLast(morePieces)
    ensures [line] + moreLines == DropEmptyLast([line] + morePieces)
  {
    DropAfterHead(line, morePieces);
  }

  lemma LinesFromHere(text: string, start: nat, line: string, next: nat)
    requires HasLine(text, start, line, next) && AreLines(text, next)
    ensures AreLines(text, start)
  {
    LinesGrow(line, LinesFrom(text, next), Pieces(text, '\n', next));
  }

  lemma LinesUpTo(text: string, start: nat, newline: nat)
    requires start <= |text| && newline == Find(text, '\n', start) < |text| && AreLines(text, newline + 1)
    ensures AreLines(text, start)
  {
    var line := NextLine(text, start, newline);
    LinesFromHere(text, start, line, newline + 1);
  }

  lemma {:induction false} LinesArePieces(text: string, start: nat)
    requires start <= |text|
    ensures AreLines(text, start)
    decreases |text| - start
  {
    var newline := Find(text, '\n', start);
    if newline < |text| {
      LinesArePieces(text, newline + 1);
      LinesUpTo(text, start, newline);
    } else {
      LastLine(text, start);
    }
  }

  lemma NextLine(text: string, start: nat, newline: nat) returns (line: string)
    requires start <= |text| && newline == Find(text, '\n', start) < |text|
    ensures HasLine(text, start, line, newline + 1)
  {
    line := text[start..newline];
  }

  /** The rest of the text is one line, or nothing after a final newline. */
  lemma LastLine(text: string, start: nat)
    requires start <= |text| && Find(text, '\n', start) == |text|
    ensures AreLines(text, start)
  {
    var line := text[start..|text|];
    assert Pieces(text, '\n', start) == [line];
    if start < |text| {
      assert LinesFrom(text, start) == [line] + [] && line != "";
    }
  }

  /** Newline-joined lines come back, with or without a final newline. */
  lemma LinesOfJoin(lines: seq<string>, terminated: bool)
    requires lines != [] && forall line | line in lines :: line != "" && Free(line, '\n')
    ensures LinesFrom(Join(lines, '\n') + (if terminated then "\n" else ""), 0) == lines
  {
    var all := if terminated then lines + [""] else lines;
    var text := Join(lines, '\n') + (if terminated then "\n" else "");
    if terminated {
      JoinLast(lines, "", '\n');
    }
    assert text[0..] == text == Join(all, '\n');
    PiecesOfJoin(text, 0, all, '\n');
    assert lines[|lines| - 1] in lines;
    LinesArePieces(text, 0);
  }

  lemma {:induction false} JoinLast(parts: seq<string>, last: string, c: char)
    requires parts != []
    ensures Join(parts + [last], c) == Join(parts, c) + [c] + last
  {
    assert (parts + [last])[1..] == parts[1..] + [last];
    if |parts| > 1 {
      JoinLast(parts[1..], last, c);
    }
  }

  /** Any text is its lines joined, with or without a final newline. */
  lemma JoinLines(text: string)
    ensures var lines := LinesFrom(text, 0);
      && (forall line | line in lines :: Free(line, '\n'))
      && (text == "" || text == Join(lines, '\n') || (lines != [] && text == Join(lines, '\n') + "\n"))
  {
    LinesArePieces(text, 0);
    JoinPieces(text, '\n', 0);
    var pieces, lines := Pieces(text, '\n', 0), LinesFrom(text, 0);
    assert text[0..] == text;
    if pieces[|pieces| - 1] == "" && |pieces| > 1 {
      assert pieces == lines + [""];
      JoinLast(lines, "", '\n');
      assert Join(lines, '\n') + "\n" + "" == Join(lines, '\n') + "\n";
    }
  }

  // ----- decimal numbers -----

  predicate IsDigit(c: char) {
    '0' <= c <= '9'
  }

  predicate AllDigits(s: string) {
    forall c | c in s :: IsDigit(c)
  }

  function DigitOf(d: nat): char
    requires d < 10
  {
    '0' + d as char
  }

  function Decimal(n: nat): (r: string)
    ensures r != "" && AllDigits(r)
  {
    if n < 10 then [DigitOf(n)] else Decimal(n / 10) + [DigitOf(n % 10)]
  }

  function DecimalValue(s: string): nat
    requires AllDigits(s)
  {
    if s == "" then 0
    else
      var last := s[|s| - 1];
      assert last in s;
      DecimalValue(s[..|s| - 1]) * 10 + (last as int - '0' as int)
  }

  lemma {:induction false} DecimalRoundTrip(n: nat)
    ensures DecimalValue(Decimal(n)) == n
  {
    if n >= 10 {
      DecimalRoundTrip(n / 10);
      var r := Decimal(n);
      assert r[..|r| - 1] == Decimal(n / 10);
    } else {
      assert Decimal(n)[..0] == "";
    }
  }

  /** A decimal number digit by digit, the last one first; the digits are those from
      code 48 on. */
  lemma DecimalMeans(n: nat)
    ensures var text := Decimal(n);
      && text[|text| - 1] as int == 48 + n % 10
      && text[..|text| - 1] == if n < 10 then "" else Decimal(n / 10)
  {
  }

  lemma DecimalValueMeans(s: string, c: char)
    requires AllDigits(s)
    ensures IsDigit(c) <==> 48 <= c as int <= 57
    ensures IsDigit(c) ==> AllDigits(s + [c]) && DecimalValue(s + [c]) == 10 * DecimalValue(s) + (c as int - 48)
    ensures DecimalValue("") == 0
  {
    assert (s + [c])[..|s|] == s;
  }
}
