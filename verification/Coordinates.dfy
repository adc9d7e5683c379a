/** What positions and offsets mean, said of the text alone: newlines passed, and code units since the last one. */
module Coordinates {
  import opened Spans
  import opened Strings
  import opened Encodings
  import opened LineIndexes
  import opened Conversions

  function Newlines(s: Str): nat {
    if s == [] then 0 else Newlines(s[..|s| - 1]) + if s[|s| - 1] == NEWLINE then 1 else 0
  }

  /** The characters after the last newline. */
  function LastLine(s: Str): (line: Str)
    ensures |line| <= |s|
  {
    if s == [] || s[|s| - 1] == NEWLINE then [] else LastLine(s[..|s| - 1]) + [s[|s| - 1]]
  }

  lemma {:induction false} LastLineIsASuffix(s: Str)
    ensures LastLine(s) == s[|s| - |LastLine(s)|..]
    ensures NEWLINE !in LastLine(s)
  {
    if s != [] && s[|s| - 1] != NEWLINE {
      LastLineIsASuffix(s[..|s| - 1]);
    }
  }

  lemma {:induction false} NewlinesAppend(s: Str, t: Str)
    ensures Newlines(s + t) == Newlines(s) + Newlines(t)
  {
    if t == [] {
      assert s + t == s;
    } else {
      var n := |t| - 1;
      NewlinesAppend(s, t[..n]);
      assert (s + t)[..|s| + n] == s + t[..n];
    }
  }

  lemma {:induction false} NoNewlines(s: Str)
    ensures Newlines(s) == 0 ==> NEWLINE !in s
  {
    if s != [] {
      NoNewlines(s[..|s| - 1]);
    }
  }

  // ----- the line table counts newlines -----

  lemma {:induction false} StartsOfPrefix(bytes: Text, n: nat)
    requires n <= |bytes|
    ensures Starts(bytes, n) == Starts(bytes[..n])
    decreases n
  {
    if n > 0 {
      StartsOfPrefix(bytes, n - 1);
      StartsOfPrefix(bytes[..n], n - 1);
      assert bytes[..n][..n - 1] == bytes[..n - 1];
    }
  }

  lemma {:induction false} StartsWithoutNewline(bytes: Text, n: nat)
    requires n <= |bytes| && forall k | n <= k < |bytes| :: bytes[k] != 10
    ensures Starts(bytes) == Starts(bytes, n)
    decreases |bytes| - n
  {
    if n < |bytes| {
      StartsWithoutNewline(bytes, n + 1);
    }
  }

  /** The table of a text has one line per newline and one more, and its last line begins where `LastLine` does. */
  lemma {:induction false} StartsCountNewlines(s: Str)
    ensures |Starts(Bytes(s))| == Newlines(s) + 1
    ensures Starts(Bytes(s))[Newlines(s)] == Off(s, |s| - |LastLine(s)|)
  {
    hide Encode, Width;
    if s == [] {
      assert Bytes(s) == [] && s[..0] == [];
    } else {
      var n := |s| - 1;
      var before, bytes := Bytes(s[..n]), Bytes(s);
      StartsCountNewlines(s[..n]);
      assert bytes == before + Encode(s[n]);
      assert bytes[..|before|] == before;
      StartsOfPrefix(bytes, |before|);
      assert s[..n][..n - |LastLine(s[..n])|] == s[..n - |LastLine(s[..n])|];
      if s[n] == NEWLINE {
        NewlineByte();
        BytesLength(s);
        assert s[..|s|] == s;
      } else {
        NoNewlineByte(s[n]);
        StartsWithoutNewline(bytes, |before|);
      }
    }
  }

  lemma NewlineByte()
    ensures Encode(NEWLINE) == [10]
  {
  }

  lemma NoNewlineByte(c: Rune)
    requires c != NEWLINE
    ensures forall k | 0 <= k < |Encode(c)| :: Encode(c)[k] != 10
  {
  }

  /** The starts at or before `n` are those of the first `n` bytes. */
  lemma {:induction false} StartsUpTo(bytes: Text, m: nat, n: nat)
    requires n <= m <= |bytes|
    ensures |Starts(bytes, n)| <= |Starts(bytes, m)|
    ensures Starts(bytes, n) == Starts(bytes, m)[..|Starts(bytes, n)|]
    ensures forall k | |Starts(bytes, n)| <= k < |Starts(bytes, m)| :: Starts(bytes, m)[k] > n
    decreases m - n
  {
    if n < m {
      StartsUpTo(bytes, m - 1, n);
    }
  }

  lemma PointAfter(starts: seq<nat>, line: nat, offset: nat)
    requires forall j, k | 0 <= j < k < |starts| :: starts[j] < starts[k]
    requires line < |starts| && starts[line] <= offset && (line + 1 < |starts| ==> offset < starts[line + 1])
    ensures PartitionPoint(starts, offset) == line + 1
  {
  }

  /** At a boundary, the line found in the table is the number of newlines passed, and starts where `LastLine` does. */
  lemma LineAtBoundary(text: Str, i: nat)
    requires i <= |text|
    ensures var starts := IndexOf(text).lineStarts;
            && LineOf(text, Off(text, i)) == Newlines(text[..i]) < |starts|
            && starts[Newlines(text[..i])] == Off(text, i - |LastLine(text[..i])|)
  {
    hide Bytes, ByteLen, Starts;
    var bytes, starts := Bytes(text), IndexOf(text).lineStarts;
    BytesLength(text);
    BytesSplit(text, i);
    StartsCountNewlines(text[..i]);
    StartsOfPrefix(bytes, Off(text, i));
    StartsUpTo(bytes, |bytes|, Off(text, i));
    StartsAreLineStarts(bytes, |bytes|);
    StartsAreLineStarts(bytes, Off(text, i));
    assert text[..i][..i - |LastLine(text[..i])|] == text[..i - |LastLine(text[..i])|];
    PointAfter(starts, |Starts(bytes, Off(text, i))| - 1, Off(text, i));
  }

  /**
    * The position of an offset: the line is the number of newlines in front of the character boundary at
    * or below it, the column the number of code units between the last of them and that boundary.
    */
  lemma PositionCounts(text: Str, offset: nat, enc: PositionEncoding)
    requires Fits(text)
    ensures var prefix := text[..FloorIndex(text, Min(offset, ByteLen(text)))];
            var position := PositionOf(text, offset, enc);
            position.line == Newlines(prefix) && position.character == |CodeUnits(enc, LastLine(prefix))|
  {
    var clamped := Min(offset, ByteLen(text));
    var i := FloorIndex(text, clamped);
    hide Bytes, ByteLen, Starts, LineEnd, FloorIndex, LineOf, Get, Newlines, LastLine, Fits, CodeUnits, Units, IsBoundary;
    PositionOfLine(text, clamped, enc);
    FloorKeepsLine(text, clamped);
    LineAtBoundary(text, i);
    LastLineIsTheSlice(text, i);
    UnitsCountCodeUnits(enc, LastLine(text[..i]));
  }

  /** The slice from the start of a boundary's line is its last line. */
  lemma LastLineIsTheSlice(text: Str, i: nat)
    requires i <= |text|
    ensures Get(text, Off(text, i - |LastLine(text[..i])|), Off(text, i)) == Some(LastLine(text[..i]))
  {
    hide Bytes, ByteLen, FloorIndex;
    var line := LastLine(text[..i]);
    LastLineIsASuffix(text[..i]);
    OffIsBoundary(text, i);
    OffIsBoundary(text, i - |line|);
    OffGrows(text, i - |line|, i);
    assert text[..i][i - |line|..] == text[i - |line|..i];
  }

  lemma LineOfLine(text: Str, line: nat, start: nat, end: nat)
    requires IsLine(text, line, start, end) && start <= end <= ByteLen(text)
    requires line + 1 < |IndexOf(text).lineStarts| ==> IndexOf(text).lineStarts[line + 1] == end + 1
    ensures LineOf(text, start) == line && LineOf(text, end) == line
  {
    hide Bytes, ByteLen, Starts, LineEnd;
    StartsAreLineStarts(Bytes(text), |Bytes(text)|);
    var starts := IndexOf(text).lineStarts;
    PointAfter(starts, line, start);
    PointAfter(starts, line, end);
  }

  /**
    * The line of a position lies between two newlines or ends of the text, with as many newlines in front
    * of it as the position says, or as there are.
    */
  lemma LineIsBetweenNewlines(text: Str, line: nat) returns (a: nat, b: nat)
    ensures a <= b <= |text| && LineTextOf(text, line) == text[a..b]
    ensures IsLine(text, ClampedLine(text, line), Off(text, a), Off(text, b))
    ensures Newlines(text[..a]) == Min(line, Newlines(text)) && (a == 0 || text[a - 1] == NEWLINE)
    ensures NEWLINE !in text[a..b] && (b == |text| || text[b] == NEWLINE)
  {
    hide Bytes, ByteLen, Starts, IsBoundary, LineEnd, FloorIndex, LineOf;
    var clamped := ClampedLine(text, line);
    var start, end := LineBounds(text, clamped);
    a, b := FloorIndex(text, start), FloorIndex(text, end);
    BoundaryIsItsFloor(text, start);
    BoundaryIsItsFloor(text, end);
    FloorIsMonotone(text, start, end);
    LineOfLine(text, clamped, start, end);
    LineAtBoundary(text, a);
    LineAtBoundary(text, b);
    StartsCountNewlines(text);
    LineStartsFresh(text, a);
    NewlinesAppend(text[..a], text[a..b]);
    assert text[..b] == text[..a] + text[a..b];
    NoNewlines(text[a..b]);
    LineEndsAtNewline(text, clamped, end);
  }

  lemma BoundaryIsItsFloor(text: Str, o: nat)
    requires IsBoundary(text, o)
    ensures Off(text, FloorIndex(text, o)) == o
  {
  }

  /** If the last line of a prefix begins at its end, the prefix is empty or ends with a newline. */
  lemma LineStartsFresh(text: Str, a: nat)
    requires a <= |text| && Off(text, a) == Off(text, a - |LastLine(text[..a])|)
    ensures a == 0 || text[a - 1] == NEWLINE
  {
    SameOffSameIndex(text, a, a - |LastLine(text[..a])|);
  }

  lemma LineEndsAtNewline(text: Str, line: nat, end: nat)
    requires line < |IndexOf(text).lineStarts| && end <= ByteLen(text)
    requires line + 1 < |IndexOf(text).lineStarts| ==> IndexOf(text).lineStarts[line + 1] == end + 1
    requires line + 1 == |IndexOf(text).lineStarts| ==> end == ByteLen(text)
    ensures var b := FloorIndex(text, end); b == |text| || text[b] == NEWLINE
  {
    hide Bytes, ByteLen, Starts, FloorIndex;
    BytesLength(text);
    StartsAreLineStarts(Bytes(text), |Bytes(text)|);
    EndsAreBoundaries(text);
    if line + 1 < |IndexOf(text).lineStarts| {
      NewlineIsAChar(text, end);
    }
  }

  /**
    * The offset of a position: in UTF-8 as many bytes into its line as the column says, or the line's end;
    * otherwise the first character of the line in front of which at least as many code units lie, or the
    * line's end.
    */
  lemma OffsetCounts(text: Str, position: Position, enc: PositionEncoding) returns (a: nat, b: nat, i: nat)
    ensures a <= i <= b <= |text| && LineTextOf(text, position.line) == text[a..b]
    ensures Newlines(text[..a]) == Min(position.line, Newlines(text)) && (a == 0 || text[a - 1] == NEWLINE)
    ensures NEWLINE !in text[a..b] && (b == |text| || text[b] == NEWLINE)
    ensures enc == Utf8 ==>
              OffsetOf(text, position, enc) == Off(text, a) + Min(position.character, |CodeUnits(Utf8, text[a..b])|)
    ensures enc != Utf8 ==>
              && OffsetOf(text, position, enc) == Off(text, i)
              && (i < b ==> |CodeUnits(enc, text[a..i])| >= position.character)
              && forall j | a <= j < i :: |CodeUnits(enc, text[a..j])| < position.character
  {
    hide Bytes, ByteLen, Starts, IsBoundary, LineEnd, FloorIndex, OffsetOf, IsLine, ClampedLine, Get, LineTextOf;
    a, b := LineIsBetweenNewlines(text, position.line);
    var start, end, lineText := OffsetStaysInLine(text, position, enc);
    LineTextIsTheSlice(text, position.line, start, end, lineText);
    SameLineSameBounds(text, position.line, start, end, Off(text, a), Off(text, b));
    if enc == Utf8 {
      i := a;
      UnitsCountCodeUnits(Utf8, lineText);
      UnitsAreAtMostBytes(Utf8, lineText);
    } else {
      i := a + CharAtUnits(enc, lineText, position.character);
      forall j | a <= j <= b ensures UnitsBefore(enc, lineText, j - a) == |CodeUnits(enc, text[a..j])| {
        assert lineText[..j - a] == text[a..j];
        UnitsCountCodeUnits(enc, text[a..j]);
      }
      SlicedOff(text, a, b, i);
    }
  }

  lemma SameLineSameBounds(text: Str, line: nat, start: nat, end: nat, start': nat, end': nat)
    requires IsLine(text, ClampedLine(text, line), start, end) && IsLine(text, ClampedLine(text, line), start', end')
    ensures start == start' && end == end'
  {
  }

  lemma SlicedOff(text: Str, a: nat, b: nat, i: nat)
    requires a <= i <= b <= |text|
    ensures Off(text, a) + Off(text[a..b], i - a) == Off(text, i)
  {
    hide Bytes, ByteLen;
    assert text[a..b][..i - a] == text[a..i] && text[..i] == text[..a] + text[a..i];
    BytesAppend(text[..a], text[a..i]);
  }
}
