/** Counting columns in the code units of the negotiated position encoding. */
module Encodings {
  import opened Spans
  import opened Strings

  datatype PositionEncoding = Utf8 | Utf16 | Utf32

  const U32_LIMIT := 0x1_0000_0000

  type U32 = n: nat | n < U32_LIMIT

  /** The `as u32` cast: it keeps the low 32 bits. */
  function AsU32(n: nat): (r: U32)
    ensures n < U32_LIMIT ==> r == n
    ensures exists high: nat :: n == high * U32_LIMIT + r
  {
    assert n == n / U32_LIMIT * U32_LIMIT + n % U32_LIMIT;
    n % U32_LIMIT
  }

  /** The code units of one character. */
  function RuneUnits(enc: PositionEncoding, c: Rune): (u: nat)
    ensures 1 <= u <= Width(c)
  {
    match enc
    case Utf8 => Width(c)
    case Utf16 => Units16(c)
    case Utf32 => 1
  }

  /** The code units of a text. */
  function Units(enc: PositionEncoding, s: Str): nat {
    if s == [] then 0 else Units(enc, s[..|s| - 1]) + RuneUnits(enc, s[|s| - 1])
  }

  // ----- what a code unit is -----

  /** The code units that a character is written as; in UTF-16 beyond 0xFFFF a surrogate pair (RFC 2781, section 2.1). */
  function Form(enc: PositionEncoding, c: Rune): seq<int> {
    match enc
    case Utf8 => Encode(c)
    case Utf16 => if c < 0x10000 then [c] else [0xD800 + (c - 0x10000) / 0x400, 0xDC00 + (c - 0x10000) % 0x400]
    case Utf32 => [c]
  }

  /** A text as the code units of an encoding. */
  function CodeUnits(enc: PositionEncoding, s: Str): seq<int> {
    if s == [] then [] else CodeUnits(enc, s[..|s| - 1]) + Form(enc, s[|s| - 1])
  }

  /** Reading UTF-16 from the front (RFC 2781, section 2.2): surrogates must come in pairs. */
  function DecodeUtf16(units: seq<int>): Option<Str> {
    if units == [] then Some([])
    else if 0xD800 <= units[0] < 0xDC00 then
      if |units| == 1 || !(0xDC00 <= units[1] < 0xE000) then None
      else match DecodeUtf16(units[2..])
        case Some(rest) => Some([0x10000 + (units[0] - 0xD800) * 0x400 + (units[1] - 0xDC00)] + rest)
        case None => None
    else if !(0 <= units[0] < 0x10000) || 0xDC00 <= units[0] < 0xE000 then None
    else match DecodeUtf16(units[1..])
      case Some(rest) => Some([units[0]] + rest)
      case None => None
  }

  lemma {:induction false} CodeUnitsOfFirst(enc: PositionEncoding, c: Rune, rest: Str)
    ensures CodeUnits(enc, [c] + rest) == Form(enc, c) + CodeUnits(enc, rest)
  {
    hide Form;
    var s := [c] + rest;
    if rest == [] {
      assert s[..0] == [];
    } else {
      var n := |rest| - 1;
      CodeUnitsOfFirst(enc, c, rest[..n]);
      assert s[..|s| - 1] == [c] + rest[..n] && s[|s| - 1] == rest[n];
    }
  }

  /** The UTF-16 units of a text say what the text is. */
  lemma {:induction false} DecodeUtf16Units(s: Str)
    ensures DecodeUtf16(CodeUnits(Utf16, s)) == Some(s)
  {
    if s != [] {
      var units, form, rest := CodeUnits(Utf16, s), Form(Utf16, s[0]), CodeUnits(Utf16, s[1..]);
      DecodeUtf16Units(s[1..]);
      CodeUnitsOfFirst(Utf16, s[0], s[1..]);
      assert s == [s[0]] + s[1..];
      hide CodeUnits;
      assert units[|form|..] == rest && units[0] == form[0] && (|form| == 2 ==> units[1] == form[1]);
    }
  }

  /** In UTF-32 the units are the characters themselves, in UTF-8 they are the bytes. */
  lemma {:induction false} PlainUnits(s: Str)
    ensures CodeUnits(Utf32, s) == s && CodeUnits(Utf8, s) == Bytes(s)
  {
    hide Encode;
    if s != [] {
      PlainUnits(s[..|s| - 1]);
      assert s == s[..|s| - 1] + [s[|s| - 1]];
    }
  }

  /** Adding up the units of the characters counts the code units of the text. */
  lemma {:induction false} UnitsCountCodeUnits(enc: PositionEncoding, s: Str)
    ensures Units(enc, s) == |CodeUnits(enc, s)|
  {
    if s != [] {
      UnitsCountCodeUnits(enc, s[..|s| - 1]);
    }
  }

  /** `units_of`, with its cast. */
  function UnitsOf(enc: PositionEncoding, s: Str): U32 {
    AsU32(Units(enc, s))
  }

  /** The code units in front of character `i`. */
  function UnitsBefore(enc: PositionEncoding, s: Str, i: nat): nat
    requires i <= |s|
  {
    Units(enc, s[..i])
  }

  lemma UnitsStep(enc: PositionEncoding, s: Str, i: nat)
    requires i < |s|
    ensures UnitsBefore(enc, s, i + 1) == UnitsBefore(enc, s, i) + RuneUnits(enc, s[i])
  {
    assert s[..i + 1][..i] == s[..i];
  }

  lemma {:induction false} UnitsGrow(enc: PositionEncoding, s: Str, i: nat, j: nat)
    requires i <= j <= |s|
    ensures UnitsBefore(enc, s, i) + (j - i) <= UnitsBefore(enc, s, j)
    decreases j - i
  {
    if i < j {
      UnitsStep(enc, s, j - 1);
      UnitsGrow(enc, s, i, j - 1);
    }
  }

  /** No encoding needs more units than UTF-8, where a unit is a byte. */
  lemma {:induction false} UnitsAreAtMostBytes(enc: PositionEncoding, s: Str)
    ensures Units(enc, s) <= ByteLen(s)
    ensures enc == Utf8 ==> Units(enc, s) == ByteLen(s)
  {
    if s != [] {
      UnitsAreAtMostBytes(enc, s[..|s| - 1]);
    }
  }

  /** The first character, from `from` on, in front of which at least `units` code units lie. */
  function CharAtUnits(enc: PositionEncoding, s: Str, units: nat, from: nat := 0): (i: nat)
    requires from <= |s|
    ensures from <= i <= |s|
    ensures i < |s| ==> UnitsBefore(enc, s, i) >= units
    ensures forall j | from <= j < i :: UnitsBefore(enc, s, j) < units
    decreases |s| - from
  {
    if from == |s| || UnitsBefore(enc, s, from) >= units then from else CharAtUnits(enc, s, units, from + 1)
  }

  /**
    * Where `units` code units lead: in UTF-8 that many bytes on; otherwise to the first character
    * boundary they reach, or to the end of the text.
    */
  function OffsetOfUnits(enc: PositionEncoding, s: Str, units: nat): (o: nat)
  {
    if enc == Utf8 then if ByteLen(s) <= units then ByteLen(s) else units
    else Off(s, CharAtUnits(enc, s, units))
  }

  /** `offset_of_units`: walks the characters, adding up units. */
  method FindOffsetOfUnits(enc: PositionEncoding, s: Str, units: U32) returns (o: nat)
    requires ByteLen(s) < U32_LIMIT
    ensures o == OffsetOfUnits(enc, s, units)
  {
    if enc == Utf8 {
      return if ByteLen(s) <= units then ByteLen(s) else units;
    }
    var seen: U32 := 0;
    var byteIdx := 0;
    for i := 0 to |s|
      invariant seen == UnitsBefore(enc, s, i) && byteIdx == Off(s, i)
      invariant forall j | 0 <= j < i :: UnitsBefore(enc, s, j) < units
    {
      if seen >= units {
        FirstIsCharAtUnits(enc, s, units, i);
        return byteIdx;
      }
      UnitsStep(enc, s, i);
      OffStep(s, i);
      UnitsFit(enc, s, i + 1);
      seen := seen + match enc case Utf16 => Units16(s[i]) case _ => 1;
      byteIdx := byteIdx + Width(s[i]);
    }
    FirstIsCharAtUnits(enc, s, units, |s|);
    assert s[..|s|] == s;
    o := ByteLen(s);
  }

  lemma FirstIsCharAtUnits(enc: PositionEncoding, s: Str, units: nat, i: nat)
    requires i <= |s| && (i < |s| ==> UnitsBefore(enc, s, i) >= units)
    requires forall j | 0 <= j < i :: UnitsBefore(enc, s, j) < units
    ensures CharAtUnits(enc, s, units) == i
  {
    var k := CharAtUnits(enc, s, units);
    assert k < |s| ==> UnitsBefore(enc, s, k) >= units;
  }

  lemma UnitsFit(enc: PositionEncoding, s: Str, i: nat)
    requires i <= |s| && ByteLen(s) < U32_LIMIT
    ensures UnitsBefore(enc, s, i) < U32_LIMIT
  {
    UnitsAreAtMostBytes(enc, s[..i]);
    OffGrows(s, i, |s|);
  }

  /** Counting units and finding the offset again are inverse on every prefix that ends at a character. */
  lemma OffsetOfUnitsInverts(enc: PositionEncoding, s: Str, i: nat)
    requires i <= |s|
    ensures OffsetOfUnits(enc, s, UnitsBefore(enc, s, i)) == Off(s, i)
  {
    UnitsAreAtMostBytes(enc, s[..i]);
    OffGrows(s, i, |s|);
    assert s[..|s|] == s;
    if enc != Utf8 {
      forall j | 0 <= j < i ensures UnitsBefore(enc, s, j) < UnitsBefore(enc, s, i) {
        UnitsGrow(enc, s, j, i);
      }
      FirstIsCharAtUnits(enc, s, UnitsBefore(enc, s, i), i);
    }
  }

  /** More units never mean a smaller offset, and no offset passes the end. */
  lemma OffsetOfUnitsIsMonotone(enc: PositionEncoding, s: Str, units: nat, units': nat)
    requires units <= units'
    ensures OffsetOfUnits(enc, s, units) <= OffsetOfUnits(enc, s, units') <= ByteLen(s)
  {
    if enc != Utf8 {
      var i, j := CharAtUnits(enc, s, units), CharAtUnits(enc, s, units');
      assert j < |s| ==> UnitsBefore(enc, s, j) >= units;
      OffGrows(s, i, j);
    }
  }

  /** Some character of the text begins at column `lo` or later, and before column `hi`. */
  ghost predicate Separated(enc: PositionEncoding, s: Str, lo: nat, hi: nat) {
    if enc == Utf8 then lo < hi && lo < ByteLen(s)
    else exists i: nat | i < |s| :: lo <= UnitsBefore(enc, s, i) < hi
  }

  /** Columns mean different offsets exactly when a character begins between them; in UTF-8 a byte is enough. */
  lemma OffsetOfUnitsGrowsIffSeparated(enc: PositionEncoding, s: Str, lo: nat, hi: nat)
    ensures OffsetOfUnits(enc, s, lo) < OffsetOfUnits(enc, s, hi) <==> Separated(enc, s, lo, hi)
  {
    if enc != Utf8 {
      var i, j := CharAtUnits(enc, s, lo), CharAtUnits(enc, s, hi);
      if i < j {
        OffGrows(s, i, j);
        assert lo <= UnitsBefore(enc, s, i) < hi;
      } else {
        OffGrows(s, j, i);
        forall k: nat | k < |s| && lo <= UnitsBefore(enc, s, k) ensures UnitsBefore(enc, s, k) >= hi {
          assert j <= i <= k;
          UnitsGrow(enc, s, j, k);
        }
      }
    }
  }

  /** In UTF-16 and UTF-32 the offset is always a character boundary. */
  lemma OffsetOfUnitsIsBoundary(enc: PositionEncoding, s: Str, units: nat)
    requires enc != Utf8
    ensures IsBoundary(s, OffsetOfUnits(enc, s, units))
  {
    OffIsBoundary(s, CharAtUnits(enc, s, units));
  }
}
