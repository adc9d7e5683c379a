/** Byte offsets to and from `(line, character)` positions. */
module LineIndexes {
  import opened Spans
  import opened Strings
  import opened Encodings

  datatype Position = Position(line: U32, character: U32)

  /** Where the lines of a text begin, and how long it is. */
  datatype LineIndex = LineIndex(lineStarts: seq<nat>, len: nat)

  /** The text is small enough for its lines and columns to be counted in 32 bits. */
  predicate Fits(text: Str) {
    ByteLen(text) + 1 < U32_LIMIT
  }

  // ----- the table -----

  /** The starts of the lines that begin in the first `n` bytes or right after them. */
  function Starts(bytes: Text, n: nat := |bytes|): (starts: seq<nat>)
    requires n <= |bytes|
    ensures |starts| > 0
  {
    if n == 0 then [0]
    else if bytes[n - 1] == 10 then Starts(bytes, n - 1) + [n]
    else Starts(bytes, n - 1)
  }

  function IndexOf(text: Str): LineIndex {
    LineIndex(Starts(Bytes(text)), |Bytes(text)|)
  }

  method NewIndex(text: Str) returns (index: LineIndex)
    ensures index == IndexOf(text)
  {
    var bytes := Bytes(text);
    var lineStarts := [0];
    for i := 0 to |bytes|
      invariant lineStarts == Starts(bytes, i)
    {
      if bytes[i] == 10 {
        lineStarts := lineStarts + [i + 1];
      }
    }
    index := LineIndex(lineStarts, |bytes|);
  }

  /** The table is sorted, starts at zero, and lists exactly the positions after newlines. */
  lemma {:induction false} StartsAreLineStarts(bytes: Text, n: nat)
    requires n <= |bytes|
    ensures var starts := Starts(bytes, n);
            && starts[0] == 0 && starts[|starts| - 1] <= n && |starts| <= n + 1
            && (forall j, k | 0 <= j < k < |starts| :: starts[j] < starts[k])
            && (forall k | 0 < k < |starts| :: 0 < starts[k] <= n && bytes[starts[k] - 1] == 10)
            && (forall b | 0 <= b < n && bytes[b] == 10 :: b + 1 in starts)
  {
    if n > 0 {
      StartsAreLineStarts(bytes, n - 1);
      var before, starts := Starts(bytes, n - 1), Starts(bytes, n);
      forall b | 0 <= b < n && bytes[b] == 10 ensures b + 1 in starts {
        if b == n - 1 {
          assert starts[|before|] == b + 1;
        } else {
          assert b + 1 in before;
        }
      }
    }
  }

  /** How many of the sorted starts are at or before `offset`. */
  function PartitionPoint(starts: seq<nat>, offset: nat): (k: nat)
    ensures k <= |starts|
    ensures k > 0 ==> starts[k - 1] <= offset
    ensures k < |starts| ==> starts[k] > offset
  {
    if starts == [] then 0
    else if starts[|starts| - 1] <= offset then |starts|
    else PartitionPoint(starts[..|starts| - 1], offset)
  }

  // ----- lines -----

  function LineStart(index: LineIndex, line: nat): Option<nat> {
    if line < |index.lineStarts| then Some(index.lineStarts[line]) else None
  }

  /** Where the line ends, its newline not included. */
  function LineEnd(index: LineIndex, text: Str, line: nat): Option<nat> {
    match LineStart(index, line)
    case None => None
    case Some(start) =>
      var next := if line + 1 < |index.lineStarts| then index.lineStarts[line + 1] else index.len;
      Some(if next > start && next <= |Bytes(text)| && Bytes(text)[next - 1] == 10 then next - 1 else next)
  }

  /** Line `line` of the text runs from `start` to `end`. */
  ghost predicate IsLine(text: Str, line: nat, start: nat, end: nat) {
    LineStart(IndexOf(text), line) == Some(start) && LineEnd(IndexOf(text), text, line) == Some(end)
  }

  /** Lines lie in the text, between character boundaries, and one newline apart. */
  lemma LineBounds(text: Str, line: nat) returns (start: nat, end: nat)
    requires line < |IndexOf(text).lineStarts|
    ensures IsLine(text, line, start, end)
    ensures start <= end <= ByteLen(text) && IsBoundary(text, start) && IsBoundary(text, end)
    ensures line + 1 < |IndexOf(text).lineStarts| ==> IndexOf(text).lineStarts[line + 1] == end + 1
    ensures line + 1 == |IndexOf(text).lineStarts| ==> end == ByteLen(text)
  {
    hide Bytes, ByteLen, IsBoundary;
    var bytes := Bytes(text);
    BytesLength(text);
    EndsAreBoundaries(text);
    StartsAreLineStarts(bytes, |bytes|);
    var starts := Starts(bytes);
    start := starts[line];
    end := LineEnd(IndexOf(text), text, line).value;
    if line > 0 {
      NewlineIsAChar(text, start - 1);
    }
    if line + 1 < |starts| {
      NewlineIsAChar(text, starts[line + 1] - 1);
    } else if bytes != [] && bytes[|bytes| - 1] == 10 {
      assert |bytes| in starts;
      var k :| 0 <= k < |starts| && starts[k] == |bytes|;
    }
  }

  // ----- positions to offsets -----

  /** The line a position means: lines past the end are the last line. */
  function ClampedLine(text: Str, line: nat): (clamped: nat)
    ensures clamped < |IndexOf(text).lineStarts|
  {
    var last := |IndexOf(text).lineStarts| - 1;
    if line <= last then line else last
  }

  /** Where the position lies, given the bounds of its line. */
  function OffsetIn(text: Str, start: nat, end: nat, character: nat, enc: PositionEncoding): nat {
    match Get(text, start, end)
    case Some(lineText) => start + OffsetOfUnits(enc, lineText, character)
    case None => start
  }

  /** The offset a position means. */
  function OffsetOf(text: Str, position: Position, enc: PositionEncoding): nat {
    var line := ClampedLine(text, position.line);
    OffsetIn(text, LineStart(IndexOf(text), line).value, LineEnd(IndexOf(text), text, line).value, position.character, enc)
  }

  /** `LineIndex::offset`. */
  method Offset(index: LineIndex, text: Str, position: Position, enc: PositionEncoding) returns (offset: Option<nat>)
    requires index == IndexOf(text) && Fits(text)
    ensures offset == Some(OffsetOf(text, position, enc))
  {
    hide Bytes, ByteLen, IsBoundary, OffsetOfUnits, Starts, Get;
    LineCountFits(text);
    var last := AsU32(|index.lineStarts|) - 1;
    var line := if position.line <= last then position.line else last;
    LineTextExists(text, line);
    var start := LineStart(index, line);
    if start.None? {
      return None;
    }
    var end := LineEnd(index, text, line);
    if end.None? {
      return None;
    }
    var lineText := Get(text, start.value, end.value);
    // Line ends are character boundaries, so the slice always exists.
    assert lineText.Some?;
    var column := FindOffsetOfUnits(enc, lineText.value, position.character);
    offset := Some(start.value + column);
  }

  lemma LineTextExists(text: Str, line: nat)
    requires line < |IndexOf(text).lineStarts| && Fits(text)
    ensures LineStart(IndexOf(text), line).Some? && LineEnd(IndexOf(text), text, line).Some?
    ensures var lineText := Get(text, LineStart(IndexOf(text), line).value, LineEnd(IndexOf(text), text, line).value);
            lineText.Some? && ByteLen(lineText.value) < U32_LIMIT
  {
    hide Bytes, ByteLen, IsBoundary, Starts, Get;
    var start, end := LineBounds(text, line);
    SliceIsInPlace(text, start, end);
  }

  lemma LineCountFits(text: Str)
    requires Fits(text)
    ensures 0 < |IndexOf(text).lineStarts| < U32_LIMIT
  {
    hide Bytes, ByteLen;
    BytesLength(text);
    StartsAreLineStarts(Bytes(text), |Bytes(text)|);
  }

  /** The characters of a slice sit in the text where its start says. */
  ghost predicate InPlace(text: Str, start: nat, slice: Str) {
    forall i: nat | i <= |slice| ::
      FloorIndex(text, start) + i <= |text| && start + Off(slice, i) == Off(text, FloorIndex(text, start) + i)
  }

  lemma SliceIsInPlace(text: Str, start: nat, end: nat)
    requires start <= end <= ByteLen(text) && IsBoundary(text, start) && IsBoundary(text, end)
    ensures var slice := Get(text, start, end);
            && slice.Some? && InPlace(text, start, slice.value) && ByteLen(slice.value) == end - start
            && FloorIndex(text, start) + |slice.value| == FloorIndex(text, end)
  {
    hide Bytes, ByteLen, FloorIndex;
    FloorIsMonotone(text, start, end);
    var a, b := FloorIndex(text, start), FloorIndex(text, end);
    var slice := text[a..b];
    forall i: nat | i <= |slice| ensures start + Off(slice, i) == Off(text, a + i) {
      assert text[..a + i] == text[..a] + slice[..i];
      BytesAppend(text[..a], slice[..i]);
    }
    assert slice[..|slice|] == slice && a + |slice| == b;
    assert start + Off(slice, |slice|) == Off(text, b) == end;
    assert Get(text, start, end) == Some(slice);
  }

  // ----- offsets to positions -----

  function Min(a: nat, b: nat): nat {
    if a <= b then a else b
  }

  function LineOf(text: Str, offset: nat): nat {
    var k := PartitionPoint(IndexOf(text).lineStarts, offset);
    if k == 0 then 0 else k - 1
  }

  /** The units between the start of the line of `offset` and the boundary at or before `offset`. */
  function ColumnOf(text: Str, offset: nat, enc: PositionEncoding): nat {
    var line := LineOf(text, offset);
    var start := if line < |IndexOf(text).lineStarts| then IndexOf(text).lineStarts[line] else 0;
    match Get(text, start, Floor(text, offset))
    case Some(lineText) => Units(enc, lineText)
    case None => 0
  }

  /** The position an offset means; offsets past the end mean the end. */
  function PositionOf(text: Str, offset: nat, enc: PositionEncoding): Position {
    var offset' := Min(offset, ByteLen(text));
    Position(AsU32(LineOf(text, offset')), AsU32(ColumnOf(text, offset', enc)))
  }

  /** `LineIndex::position`: backs up to a character boundary, then counts the column. */
  method FindPosition(index: LineIndex, text: Str, offset: nat, enc: PositionEncoding) returns (position: Position)
    requires index == IndexOf(text)
    ensures position == PositionOf(text, offset, enc)
  {
    hide Bytes, ByteLen, Floor, Starts, Get, IsCharBoundary, IsBoundary;
    BytesLength(text);
    var clamped := Min(offset, index.len);
    var k := PartitionPoint(index.lineStarts, clamped);
    var line := if k == 0 then 0 else k - 1;
    LineOfIsALine(text, clamped);
    var start := index.lineStarts[line];
    var end := clamped;
    FloorIsLargestBoundary(text, clamped, start);
    while end > start && !IsCharBoundary(text, end)
      invariant start <= end <= clamped && Floor(text, clamped) <= end
    {
      CharBoundaryIsBoundary(text, end);
      end := end - 1;
    }
    CharBoundaryIsBoundary(text, end);
    FloorIsLargestBoundary(text, clamped, end);
    var lineText := Get(text, start, end);
    position := Position(AsU32(line), UnitsOf(enc, if lineText.Some? then lineText.value else []));
  }

  /** Every offset in the text lies in a line, and the boundary before it is not past the line's end. */
  lemma LineOfIsALine(text: Str, offset: nat)
    requires offset <= ByteLen(text)
    ensures LineOf(text, offset) < |IndexOf(text).lineStarts|
    ensures IndexOf(text).lineStarts[LineOf(text, offset)] <= offset
    ensures IsBoundary(text, IndexOf(text).lineStarts[LineOf(text, offset)])
    ensures IndexOf(text).lineStarts[LineOf(text, offset)] <= Floor(text, offset)
    ensures LineEnd(IndexOf(text), text, LineOf(text, offset)).Some?
    ensures Floor(text, offset) <= offset <= LineEnd(IndexOf(text), text, LineOf(text, offset)).value
  {
    hide Bytes, ByteLen, IsBoundary;
    BytesLength(text);
    StartsAreLineStarts(Bytes(text), |Bytes(text)|);
    var start, end := LineBounds(text, LineOf(text, offset));
    FloorIsLargestBoundary(text, offset, start);
  }
}
