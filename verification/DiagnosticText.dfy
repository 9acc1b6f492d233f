/** The bounded form in which untrusted bytes appear in diagnostics. */
module DiagnosticText {
  import opened InstallContent

  const ARTIFACT_DIAGNOSTIC_VALUE_LIMIT: nat := 96

  const HEX_DIGITS := "0123456789abcdef"

  predicate IsPlain(b: Byte) {
    0x20 <= b <= 0x7E && b != 0x5C
  }

  /** One byte: itself, a doubled backslash, or its two hexadecimal digits. */
  function EscapeByte(b: Byte): string {
    if IsPlain(b) then [b as char]
    else if b == 0x5C then ['\\', '\\']
    else ['\\', 'x', HEX_DIGITS[b / 16], HEX_DIGITS[b % 16]]
  }

  function Escape(bytes: Bytes): string {
    if bytes == [] then "" else Escape(bytes[..|bytes| - 1]) + EscapeByte(bytes[|bytes| - 1])
  }

  function Kept(value: Bytes): Bytes {
    value[..Min(|value|, ARTIFACT_DIAGNOSTIC_VALUE_LIMIT)]
  }

  function Ellipsis(value: Bytes): string {
    if |value| > ARTIFACT_DIAGNOSTIC_VALUE_LIMIT then "..." else ""
  }

  function Bounded(value: Bytes): string {
    Escape(Kept(value)) + Ellipsis(value)
  }

  lemma EscapeMore(value: Bytes, index: nat)
    requires index < |value|
    ensures Escape(value[..index + 1]) == Escape(value[..index]) + EscapeByte(value[index])
  {
    assert value[..index + 1][..index] == value[..index];
  }

  method EscapeCharacter(character: Byte) returns (escaped: string)
    ensures escaped == EscapeByte(character)
  {
    if character >= 0x20 && character <= 0x7E && character != 0x5C {
      escaped := [character as char];
    } else if character == 0x5C {
      escaped := "\\\\";
    } else {
      escaped := "\\x" + [HEX_DIGITS[character / 16]] + [HEX_DIGITS[character % 16]];
    }
  }

  method BoundedArtifactDiagnosticValue(value: Bytes) returns (bounded: string)
    ensures bounded == Bounded(value)
  {
    bounded := "";
    var copiedSize := Min(|value|, ARTIFACT_DIAGNOSTIC_VALUE_LIMIT);
    for index := 0 to copiedSize
      invariant bounded == Escape(value[..index])
    {
      EscapeMore(value, index);
      var escaped := EscapeCharacter(value[index]);
      bounded := bounded + escaped;
    }
    if |value| > copiedSize {
      bounded := bounded + "...";
    } else {
      assert bounded + "" == bounded;
    }
  }

  // ----- what the text shows and what it hides -----

  predicate IsPrintable(text: string) {
    forall i | 0 <= i < |text| :: 0x20 <= text[i] as int <= 0x7E
  }

  lemma HexDigitIsPrintable(i: nat)
    requires i < 16
    ensures 0x20 <= HEX_DIGITS[i] as int <= 0x7E
  {
  }

  lemma ByteIsPrintable(b: Byte)
    ensures IsPrintable(EscapeByte(b)) && 1 <= |EscapeByte(b)| <= 4
  {
    HexDigitIsPrintable(b / 16);
    HexDigitIsPrintable(b % 16);
  }

  lemma PrintableTogether(a: string, b: string)
    requires IsPrintable(a) && IsPrintable(b)
    ensures IsPrintable(a + b)
  {
  }

  lemma {:induction false} EscapeIsPrintable(bytes: Bytes)
    ensures IsPrintable(Escape(bytes)) && |bytes| <= |Escape(bytes)| <= 4 * |bytes|
  {
    if bytes != [] {
      var most, last := bytes[..|bytes| - 1], bytes[|bytes| - 1];
      EscapeIsPrintable(most);
      ByteIsPrintable(last);
      PrintableTogether(Escape(most), EscapeByte(last));
    }
  }

  /** Only printable ASCII, and never more than four characters a byte plus the
      ellipsis. */
  lemma BoundedIsPrintable(value: Bytes)
    ensures IsPrintable(Bounded(value)) && |Bounded(value)| <= 4 * ARTIFACT_DIAGNOSTIC_VALUE_LIMIT + 3
  {
    EscapeIsPrintable(Kept(value));
    assert IsPrintable("...");
  }

  lemma {:induction false} EscapeFirst(bytes: Bytes)
    requires bytes != []
    ensures Escape(bytes) == EscapeByte(bytes[0]) + Escape(bytes[1..])
  {
    var last := bytes[|bytes| - 1];
    if |bytes| == 1 {
      assert bytes[..0] == [] && bytes[1..] == [];
    } else {
      EscapeFirst(bytes[..|bytes| - 1]);
      assert bytes[..|bytes| - 1][1..] == bytes[1..][..|bytes| - 2];
    }
  }

  lemma HexDigitsDiffer(i: nat, j: nat)
    requires i < 16 && j < 16 && HEX_DIGITS[i] == HEX_DIGITS[j]
    ensures i == j
  {
  }

  /** No escape of a byte is the start of another's. */
  lemma BytesComeApart(b: Byte, c: Byte, after: string, other: string)
    requires EscapeByte(b) + after == EscapeByte(c) + other
    ensures b == c && after == other
  {
    var left, right := EscapeByte(b) + after, EscapeByte(c) + other;
    assert left[0] == EscapeByte(b)[0] && right[0] == EscapeByte(c)[0];
    if !IsPlain(b) && !IsPlain(c) {
      assert left[1] == EscapeByte(b)[1] && right[1] == EscapeByte(c)[1];
      if b != 0x5C && c != 0x5C {
        assert left[2] == EscapeByte(b)[2] && right[2] == EscapeByte(c)[2];
        assert left[3] == EscapeByte(b)[3] && right[3] == EscapeByte(c)[3];
        HexDigitsDiffer(b / 16, c / 16);
        HexDigitsDiffer(b % 16, c % 16);
      }
    }
    assert after == left[|EscapeByte(b)|..] && other == right[|EscapeByte(c)|..];
  }

  lemma Regroup(text: string, head: string, tail: string, after: string)
    requires text == head + tail
    ensures text + after == head + (tail + after)
  {
  }

  lemma FirstBytesAgree(a: Bytes, x: string, b: Bytes, y: string)
    requires a != [] && b != [] && Escape(a) + x == Escape(b) + y
    ensures a[0] == b[0] && Escape(a[1..]) + x == Escape(b[1..]) + y
  {
    EscapeFirst(a);
    EscapeFirst(b);
    Regroup(Escape(a), EscapeByte(a[0]), Escape(a[1..]), x);
    Regroup(Escape(b), EscapeByte(b[0]), Escape(b[1..]), y);
    BytesComeApart(a[0], b[0], Escape(a[1..]) + x, Escape(b[1..]) + y);
  }

  lemma OneIsEmpty(a: Bytes, x: string, b: Bytes, y: string, n: nat)
    requires (a == [] || b == []) && |a| <= n && |b| <= n && x in {"", "..."} && y in {"", "..."}
    requires (x == "..." ==> |a| == n) && (y == "..." ==> |b| == n)
    requires Escape(a) + x == Escape(b) + y
    ensures a == b && x == y
  {
    EscapeIsPrintable(a);
    EscapeIsPrintable(b);
    assert |Escape(a)| + |x| == |Escape(a) + x| == |Escape(b)| + |y|;
    assert Escape([]) + x == x && Escape([]) + y == y;
  }

  /** At most `n` bytes are kept, and exactly `n` of them before an ellipsis. */
  lemma {:induction false} TextsComeApart(a: Bytes, x: string, b: Bytes, y: string, n: nat)
    requires |a| <= n && |b| <= n && x in {"", "..."} && y in {"", "..."}
    requires (x == "..." ==> |a| == n) && (y == "..." ==> |b| == n)
    requires Escape(a) + x == Escape(b) + y
    ensures a == b && x == y
    decreases n
  {
    if a != [] && b != [] {
      FirstBytesAgree(a, x, b, y);
      TextsComeApart(a[1..], x, b[1..], y, n - 1);
      assert a == [a[0]] + a[1..] && b == [b[0]] + b[1..];
    } else {
      OneIsEmpty(a, x, b, y, n);
    }
  }

  /** Two values look alike exactly when their first 96 bytes agree and either both
      or neither were cut, even when a short value itself ends in dots. */
  lemma LookAlike(a: Bytes, b: Bytes)
    ensures Bounded(a) == Bounded(b) <==>
      Kept(a) == Kept(b)
      && (|a| > ARTIFACT_DIAGNOSTIC_VALUE_LIMIT <==> |b| > ARTIFACT_DIAGNOSTIC_VALUE_LIMIT)
  {
    if Bounded(a) == Bounded(b) {
      TextsComeApart(Kept(a), Ellipsis(a), Kept(b), Ellipsis(b), ARTIFACT_DIAGNOSTIC_VALUE_LIMIT);
    }
  }

  // ----- the text by the codes of its characters -----

  /** The digit of a value below sixteen: 0 to 9, then a to f. */
  predicate IsHexDigit(c: char, value: int) {
    || (0 <= value < 10 && c as int == 48 + value)
    || (10 <= value < 16 && c as int == 97 + value - 10)
  }

  /** What one byte shows as: a printable one as itself, the backslash doubled, any other
      one as a backslash, an x and its two digits. */
  predicate Shows(text: string, b: Byte) {
    if b == 92 then |text| == 2 && text[0] as int == 92 && text[1] as int == 92
    else if 32 <= b <= 126 then |text| == 1 && text[0] as int == b
    else
      && |text| == 4 && text[0] as int == 92 && text[1] as int == 120
      && IsHexDigit(text[2], b / 16) && IsHexDigit(text[3], b % 16)
  }

  /** The text is what the bytes show as, one after the other. */
  ghost predicate ShowsAll(text: string, bytes: Bytes) {
    if bytes == [] then text == ""
    else exists k: nat | k <= |text| :: Shows(text[..k], bytes[0]) && ShowsAll(text[k..], bytes[1..])
  }

  lemma HexDigitMeans(value: nat)
    requires value < 16
    ensures IsHexDigit(HEX_DIGITS[value], value)
  {
  }

  lemma ByteShows(b: Byte)
    ensures Shows(EscapeByte(b), b)
  {
    HexDigitMeans(b / 16);
    HexDigitMeans(b % 16);
  }

  lemma {:induction false} EscapeShows(bytes: Bytes)
    ensures ShowsAll(Escape(bytes), bytes)
  {
    if bytes != [] {
      EscapeFirst(bytes);
      EscapeShows(bytes[1..]);
      ByteShows(bytes[0]);
      var text, k := Escape(bytes), |EscapeByte(bytes[0])|;
      assert text[..k] == EscapeByte(bytes[0]) && text[k..] == Escape(bytes[1..]);
    }
  }

  /** The bounded form shows the first 96 bytes and three dots for any others. */
  lemma BoundedShows(value: Bytes)
    ensures |value| <= 96 ==> ShowsAll(Bounded(value), value)
    ensures |value| > 96 ==> exists text :: Bounded(value) == text + "..." && ShowsAll(text, value[..96])
  {
    EscapeShows(Kept(value));
    if |value| <= 96 {
      assert Kept(value) == value && Bounded(value) == Escape(value);
    } else {
      assert Kept(value) == value[..96];
    }
  }
}
