/** What converting between offsets and positions, there and back, preserves. */
module Conversions {
  import opened Spans
  import opened Strings
  import opened Encodings
  import opened LineIndexes

  /** A shorter slice from the same start is a prefix of the longer one. */
  lemma SlicesNest(text: Str, start: nat, mid: nat, end: nat)
    requires start <= mid <= end <= ByteLen(text)
    requires IsBoundary(text, start) && IsBoundary(text, mid) && IsBoundary(text, end)
    ensures var short, long := Get(text, start, mid), Get(text, start, end);
            && short.Some? && long.Some? && |short.value| <= |long.value|
            && short.value == long.value[..|short.value|]
            && start + Off(long.value, |short.value|) == mid && start + ByteLen(long.value) == end
  {
    hide ByteLen, Bytes, FloorIndex, Get;
    SliceIsInPlace(text, start, mid);
    SliceIsInPlace(text, start, end);
    FloorIsMonotone(text, start, mid);
    FloorIsMonotone(text, mid, end);
    SlicesOfOneStart(text, start, mid, end);
  }

  lemma SlicesOfOneStart(text: Str, start: nat, mid: nat, end: nat)
    requires Get(text, start, mid).Some? && Get(text, start, end).Some?
    requires FloorIndex(text, mid) <= FloorIndex(text, end)
    ensures var short, long := Get(text, start, mid).value, Get(text, start, end).value;
            |short| <= |long| && short == long[..|short|]
  {
    hide ByteLen, Bytes, FloorIndex;
    FloorIsMonotone(text, start, mid);
    var a, b, c := FloorIndex(text, start), FloorIndex(text, mid), FloorIndex(text, end);
    assert text[a..b] == text[a..c][..b - a];
  }

  /** The slice that `position` counts its column in. */
  lemma ColumnText(text: Str, offset: nat) returns (start: nat)
    requires offset <= ByteLen(text)
    ensures LineOf(text, offset) < |IndexOf(text).lineStarts| && start == IndexOf(text).lineStarts[LineOf(text, offset)]
    ensures IsBoundary(text, start) && start <= Floor(text, offset) <= offset
    ensures var slice := Get(text, start, Floor(text, offset)); slice.Some? && ByteLen(slice.value) <= ByteLen(text)
  {
    LineOfIsALine(text, offset);
    FloorIsLargestBoundary(text, offset, 0);
    start := IndexOf(text).lineStarts[LineOf(text, offset)];
    hide Bytes, ByteLen, Starts, FloorIndex, Get, Floor, LineEnd, LineOf;
    SliceIsInPlace(text, start, Floor(text, offset));
  }

  lemma LinesAndColumnsFit(text: Str, offset: nat, enc: PositionEncoding)
    requires Fits(text) && offset <= ByteLen(text)
    ensures LineOf(text, offset) < U32_LIMIT && ColumnOf(text, offset, enc) < U32_LIMIT
  {
    LineCountFits(text);
    var start := ColumnText(text, offset);
    hide Bytes, ByteLen, Starts, FloorIndex, Get, Floor, LineOf, IsBoundary;
    UnitsAreAtMostBytes(enc, Get(text, start, Floor(text, offset)).value);
  }

  lemma OffsetOfLine(text: Str, position: Position, enc: PositionEncoding, start: nat, end: nat)
    requires IsLine(text, ClampedLine(text, position.line), start, end) && Get(text, start, end).Some?
    ensures OffsetOf(text, position, enc) == start + OffsetOfUnits(enc, Get(text, start, end).value, position.character)
  {
  }

  /** What `position` computes, without its casts, which lose nothing. */
  lemma PositionOfLine(text: Str, offset: nat, enc: PositionEncoding)
    requires Fits(text) && offset <= ByteLen(text)
    ensures var p := PositionOf(text, offset, enc); var line := LineOf(text, offset);
            && p.line == line && line < |IndexOf(text).lineStarts| && ClampedLine(text, line) == line
            && var start := IndexOf(text).lineStarts[line];
            && LineStart(IndexOf(text), line) == Some(start) && IsBoundary(text, start)
            && start <= Floor(text, offset)
            && Get(text, start, Floor(text, offset)).Some?
            && p.character == Units(enc, Get(text, start, Floor(text, offset)).value)
  {
    LinesAndColumnsFit(text, offset, enc);
    var start := ColumnText(text, offset);
    hide Bytes, ByteLen, Starts, FloorIndex, Get, Floor, LineOf, IsBoundary;
  }

  /** The boundary before an offset is not past the end of the offset's line. */
  lemma FloorStaysInLine(text: Str, offset: nat) returns (end: nat)
    requires offset <= ByteLen(text) && LineOf(text, offset) < |IndexOf(text).lineStarts|
    ensures LineEnd(IndexOf(text), text, LineOf(text, offset)) == Some(end)
    ensures Floor(text, offset) <= end <= ByteLen(text)
    ensures IsBoundary(text, end) && IsBoundary(text, Floor(text, offset))
  {
    LineOfIsALine(text, offset);
    FloorIsLargestBoundary(text, offset, 0);
    var start, end' := LineBounds(text, LineOf(text, offset));
    end := end';
  }

  /** From an offset to a position and back: the largest character boundary not above it. */
  lemma RoundTrip(text: Str, offset: nat, enc: PositionEncoding)
    requires Fits(text)
    ensures OffsetOf(text, PositionOf(text, offset, enc), enc) == Floor(text, Min(offset, ByteLen(text)))
  {
    var clamped := Min(offset, ByteLen(text));
    assert PositionOf(text, offset, enc) == PositionOf(text, clamped, enc);
    PositionOfLine(text, clamped, enc);
    hide Bytes, ByteLen, Starts, FloorIndex, Get, OffsetOfUnits, Floor, IsBoundary, OffsetOf, PositionOf, LineOf, LineEnd, Fits;
    var end := FloorStaysInLine(text, clamped);
    var start := IndexOf(text).lineStarts[LineOf(text, clamped)];
    SlicesNest(text, start, Floor(text, clamped), end);
    OffsetOfLine(text, PositionOf(text, clamped, enc), enc, start, end);
    OffsetOfUnitsInverts(enc, Get(text, start, end).value, |Get(text, start, Floor(text, clamped)).value|);
  }

  /** Nothing between an offset and the boundary before it starts a line. */
  lemma FloorKeepsLine(text: Str, offset: nat)
    requires offset <= ByteLen(text)
    ensures LineOf(text, Floor(text, offset)) == LineOf(text, offset)
  {
    FloorIsLargestBoundary(text, offset, 0);
    LineOfIsALine(text, offset);
    LineOfIsALine(text, Floor(text, offset));
    BytesLength(text);
    StartsAreLineStarts(Bytes(text), |Bytes(text)|);
    hide Bytes, ByteLen, FloorIndex, Get, Floor, IsBoundary, Starts, LineEnd;
    var starts := IndexOf(text).lineStarts;
    SameLine(starts, Floor(text, offset), offset);
  }

  lemma SameLine(starts: seq<nat>, o: nat, o': nat)
    requires |starts| > 0 && starts[0] <= o <= o' && forall j, k | 0 <= j < k < |starts| :: starts[j] < starts[k]
    requires starts[PartitionPoint(starts, o') - 1] <= o
    ensures PartitionPoint(starts, o) == PartitionPoint(starts, o')
  {
    var j, k := PartitionPoint(starts, o), PartitionPoint(starts, o');
    assert j < |starts| ==> starts[j] > o;
    assert k < |starts| ==> starts[k] > o';
  }

  /** Rounding an offset down first does not change its position. */
  lemma PositionIgnoresRounding(text: Str, offset: nat, enc: PositionEncoding)
    requires offset <= ByteLen(text)
    ensures PositionOf(text, Floor(text, offset), enc) == PositionOf(text, offset, enc)
  {
    FloorIsLargestBoundary(text, offset, 0);
    FloorKeepsLine(text, offset);
    hide Bytes, ByteLen, FloorIndex, Get, Floor, Starts, LineOf;
  }

  /** Once converted, converting back and forth again changes nothing. */
  lemma SecondRoundTripIsIdentity(text: Str, offset: nat, enc: PositionEncoding)
    requires Fits(text)
    ensures var p := PositionOf(text, offset, enc); PositionOf(text, OffsetOf(text, p, enc), enc) == p
  {
    RoundTrip(text, offset, enc);
    PositionIgnoresRounding(text, Min(offset, ByteLen(text)), enc);
  }

  /** The line a position means, and the bounds its offset keeps. */
  lemma OffsetStaysInLine(text: Str, position: Position, enc: PositionEncoding) returns (start: nat, end: nat, lineText: Str)
    ensures IsLine(text, ClampedLine(text, position.line), start, end)
    ensures start <= end <= ByteLen(text) && IsBoundary(text, start) && IsBoundary(text, end)
    ensures Get(text, start, end) == Some(lineText) && ByteLen(lineText) == end - start
    ensures OffsetOf(text, position, enc) == start + OffsetOfUnits(enc, lineText, position.character)
    ensures start <= OffsetOf(text, position, enc) <= end
  {
    hide Bytes, ByteLen, Starts, FloorIndex, Get, OffsetOfUnits, IsBoundary, OffsetOf, IsLine, ClampedLine, InPlace;
    start, end := LineBounds(text, ClampedLine(text, position.line));
    SliceIsInPlace(text, start, end);
    lineText := Get(text, start, end).value;
    OffsetOfLine(text, position, enc, start, end);
    OffsetOfUnitsIsMonotone(enc, lineText, position.character, position.character);
  }

  /** The boundaries of a slice are those of the text. */
  lemma SliceBoundary(text: Str, start: nat, end: nat, i: nat)
    requires Get(text, start, end).Some? && i <= |Get(text, start, end).value|
    ensures IsBoundary(text, start + Off(Get(text, start, end).value, i))
  {
    SliceIsInPlace(text, start, end);
    hide Bytes, ByteLen, FloorIndex, Get, IsBoundary;
    var slice := Get(text, start, end).value;
    assert start + Off(slice, i) == Off(text, FloorIndex(text, start) + i);
    OffIsBoundary(text, FloorIndex(text, start) + i);
  }

  /** The text of the line a position means. */
  function LineTextOf(text: Str, line: nat): Str {
    var clamped := ClampedLine(text, line);
    match Get(text, LineStart(IndexOf(text), clamped).value, LineEnd(IndexOf(text), text, clamped).value)
    case Some(lineText) => lineText
    case None => []
  }

  lemma LineTextIsTheSlice(text: Str, line: nat, start: nat, end: nat, lineText: Str)
    requires IsLine(text, ClampedLine(text, line), start, end) && Get(text, start, end) == Some(lineText)
    ensures LineTextOf(text, line) == lineText
  {
  }

  /** Inside a slice, its own boundaries are the text's. */
  lemma SliceBoundaryIff(text: Str, start: nat, slice: Str, c: nat)
    requires InPlace(text, start, slice) && c < ByteLen(slice)
    ensures IsBoundary(slice, c) <==> IsBoundary(text, start + c)
  {
    hide ByteLen, FloorIndex;
    assert slice[..|slice|] == slice;
    var i := FloorIndex(slice, c);
    FloorIndexIsUnique(text, start + c, FloorIndex(text, start) + i);
  }

  /** The column of a position does not cut a character of its line: it must not, where columns count bytes. */
  predicate CutsNoChar(text: Str, position: Position, enc: PositionEncoding) {
    var lineText := LineTextOf(text, position.line);
    enc != Utf8 || position.character >= ByteLen(lineText) || IsBoundary(lineText, position.character)
  }

  /** A position means a character boundary exactly when its column does not cut a character. */
  lemma OffsetIsBoundaryIff(text: Str, position: Position, enc: PositionEncoding)
    ensures IsBoundary(text, OffsetOf(text, position, enc)) <==> CutsNoChar(text, position, enc)
  {
    hide ByteLen, Bytes, FloorIndex, Get, IsBoundary, Starts, OffsetOf, LineTextOf, IsLine, InPlace, ClampedLine, Off, IndexOf, LineEnd;
    if enc != Utf8 {
      OffsetIsBoundary(text, position, enc);
    } else {
      var start, end, lineText := OffsetStaysInLine(text, position, enc);
      LineTextIsTheSlice(text, position.line, start, end, lineText);
      SliceIsInPlace(text, start, end);
      if position.character < ByteLen(lineText) {
        SliceBoundaryIff(text, start, lineText, position.character);
      }
    }
  }

  /** In UTF-16 and UTF-32 every position means a character boundary. */
  lemma OffsetIsBoundary(text: Str, position: Position, enc: PositionEncoding)
    requires enc != Utf8
    ensures IsBoundary(text, OffsetOf(text, position, enc))
  {
    hide Bytes, ByteLen, FloorIndex, Get, OffsetOf, IsBoundary, IsLine, ClampedLine, Off;
    var start, end, lineText := OffsetStaysInLine(text, position, enc);
    SliceBoundary(text, start, end, CharAtUnits(enc, lineText, position.character));
  }

  /**
    * Column rounding in UTF-16 and UTF-32: the offset is the first boundary of the line in front of
    * which at least `character` code units lie, or the end of the line.
    */
  lemma ColumnRoundsUp(text: Str, position: Position, enc: PositionEncoding, b: nat) returns (start: nat, end: nat)
    requires enc != Utf8
    ensures IsLine(text, ClampedLine(text, position.line), start, end)
    ensures var r := OffsetOf(text, position, enc);
            && start <= r <= end && IsBoundary(text, r)
            && (r < end ==> Get(text, start, r).Some? && Units(enc, Get(text, start, r).value) >= position.character)
            && (start <= b < r && IsBoundary(text, b) ==>
                  Get(text, start, b).Some? && Units(enc, Get(text, start, b).value) < position.character)
  {
    hide Bytes, ByteLen, FloorIndex, Get, IsBoundary, OffsetOf, IsLine, ClampedLine, Units, Off;
    var lineText;
    start, end, lineText := OffsetStaysInLine(text, position, enc);
    OffsetIsBoundary(text, position, enc);
    var r := OffsetOf(text, position, enc);
    var i := CharAtUnits(enc, lineText, position.character);
    SlicesNest(text, start, r, end);
    SameOffSameIndex(lineText, |Get(text, start, r).value|, i);
    assert i < |lineText| ==> Units(enc, Get(text, start, r).value) >= position.character;
    WholeOff(lineText);
    if start <= b < r && IsBoundary(text, b) {
      SlicesNest(text, start, b, end);
      var j := |Get(text, start, b).value|;
      if i <= j {
        OffGrows(lineText, i, j);
      }
      assert UnitsBefore(enc, lineText, j) == Units(enc, Get(text, start, b).value);
    }
  }

  lemma WholeOff(s: Str)
    ensures Off(s, |s|) == ByteLen(s)
  {
    assert s[..|s|] == s;
  }

  lemma SameOffSameIndex(s: Str, i: nat, j: nat)
    requires i <= |s| && j <= |s| && Off(s, i) == Off(s, j)
    ensures i == j
  {
    if i <= j {
      OffGrows(s, i, j);
    } else {
      OffGrows(s, j, i);
    }
  }

  /** Once the line is clamped, offsets follow the lexicographic order of positions. */
  lemma OffsetsFollowPositions(text: Str, p: Position, q: Position, enc: PositionEncoding)
    requires ClampedLine(text, p.line) < ClampedLine(text, q.line) ||
             (ClampedLine(text, p.line) == ClampedLine(text, q.line) && p.character <= q.character)
    ensures OffsetOf(text, p, enc) <= OffsetOf(text, q, enc)
  {
    var start, end, lineText := OffsetStaysInLine(text, p, enc);
    var start', end', lineText' := OffsetStaysInLine(text, q, enc);
    hide ByteLen, FloorIndex, Get, IsBoundary, OffsetOfUnits, Starts, OffsetOf, ClampedLine;
    var j, k := ClampedLine(text, p.line), ClampedLine(text, q.line);
    if j == k {
      OffsetOfUnitsIsMonotone(enc, lineText, p.character, q.character);
    } else {
      BytesLength(text);
      StartsAreLineStarts(Bytes(text), |Bytes(text)|);
      var s, e := LineBounds(text, j);
      assert IndexOf(text).lineStarts[j + 1] <= IndexOf(text).lineStarts[k];
    }
  }

  /**
    * Without clamping they do not.  For positions in lexicographic order, the offsets are out of
    * order exactly when both lines are clamped to the same one and a character of its text begins
    * between the two columns.
    */
  lemma OrderFailsIff(text: Str, p: Position, q: Position, enc: PositionEncoding)
    requires p.line < q.line || (p.line == q.line && p.character <= q.character)
    ensures OffsetOf(text, p, enc) > OffsetOf(text, q, enc) <==>
            ClampedLine(text, p.line) == ClampedLine(text, q.line) &&
            Separated(enc, LineTextOf(text, q.line), q.character, p.character)
  {
    hide ByteLen, Bytes, FloorIndex, Get, IsBoundary, OffsetOfUnits, Starts, OffsetOf, Separated, LineTextOf;
    if ClampedLine(text, p.line) == ClampedLine(text, q.line) {
      var start, end, lineText := OffsetStaysInLine(text, p, enc);
      var start', end', lineText' := OffsetStaysInLine(text, q, enc);
      LineTextIsTheSlice(text, q.line, start', end', lineText');
      OffsetOfUnitsGrowsIffSeparated(enc, lineText, q.character, p.character);
    } else {
      OffsetsFollowPositions(text, p, q, enc);
    }
  }

  /** It happens past the last line, where the line is clamped but the character is kept. */
  lemma OrderFailsPastTheLastLine()
    ensures var text: Str := [97]; var p, q := Position(0, 1), Position(1, 0);
            p.line < q.line && OffsetOf(text, p, Utf16) == 1 && OffsetOf(text, q, Utf16) == 0
  {
    var text: Str := [97];
    assert text[..0] == [] && text[..1] == text;
    assert Bytes(text) == [97] by {
      assert Bytes([]) == [];
    }
    assert Starts(Bytes(text), 0) == [0] && Starts(Bytes(text), 1) == [0];
    EndsAreBoundaries(text);
    assert ByteLen([]) == 0 && ByteLen(text) == 1;
    assert Get(text, 0, 1) == Some(text);
    assert UnitsBefore(Utf16, text, 0) == 0 && UnitsBefore(Utf16, text, 1) == 1;
  }
}
