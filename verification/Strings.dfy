/** Text as a sequence of characters, and the bytes and code units they occupy. */
module Strings {
  import opened Spans

  /** A Unicode scalar value. */
  type Rune = c: int | 0 <= c < 0x110000 && !(0xD800 <= c < 0xE000)

  predicate IsRune(c: int) {
    0 <= c < 0x110000 && !(0xD800 <= c < 0xE000)
  }

  type Str = seq<Rune>

  const NEWLINE: Rune := 10

  /** The number of bytes of a character in UTF-8. */
  function Width(c: Rune): (w: nat)
    ensures 1 <= w <= 4
  {
    if c < 0x80 then 1 else if c < 0x800 then 2 else if c < 0x10000 then 3 else 4
  }

  /** The UTF-8 form of a character (RFC 3629, section 3). */
  function Encode(c: Rune): (bytes: Text)
    ensures |bytes| == Width(c)
    ensures !IsContinuation(bytes[0])
    ensures forall k | 1 <= k < |bytes| :: IsContinuation(bytes[k])
    ensures forall k | 0 <= k < |bytes| :: bytes[k] == 10 ==> c == NEWLINE
  {
    if c < 0x80 then [c]
    else if c < 0x800 then [0xC0 + c / 0x40, 0x80 + c % 0x40]
    else if c < 0x10000 then [0xE0 + c / 0x1000, 0x80 + c / 0x40 % 0x40, 0x80 + c % 0x40]
    else [0xF0 + c / 0x40000, 0x80 + c / 0x1000 % 0x40, 0x80 + c / 0x40 % 0x40, 0x80 + c % 0x40]
  }

  predicate IsContinuation(b: Byte) {
    0x80 <= b < 0xC0
  }

  /** The number of UTF-16 code units of a character (RFC 2781, section 2.1). */
  function Units16(c: Rune): (u: nat)
    ensures 1 <= u <= Width(c)
  {
    if c < 0x10000 then 1 else 2
  }

  function Bytes(s: Str): Text {
    if s == [] then [] else Bytes(s[..|s| - 1]) + Encode(s[|s| - 1])
  }

  /** The length of the text in bytes. */
  function ByteLen(s: Str): nat {
    if s == [] then 0 else ByteLen(s[..|s| - 1]) + Width(s[|s| - 1])
  }

  lemma {:induction false} BytesLength(s: Str)
    ensures |Bytes(s)| == ByteLen(s)
  {
    hide Encode;
    if s != [] {
      BytesLength(s[..|s| - 1]);
    }
  }

  lemma {:induction false} ByteLenAppend(s: Str, t: Str)
    ensures ByteLen(s + t) == ByteLen(s) + ByteLen(t)
  {
    hide Width;
    if t == [] {
      assert s + t == s;
    } else {
      var n := |t| - 1;
      ByteLenAppend(s, t[..n]);
      assert (s + t)[..|s| + n] == s + t[..n] && (s + t)[|s| + n] == t[n];
      assert ByteLen(s + t) == ByteLen(s + t[..n]) + Width(t[n]);
    }
  }

  lemma {:induction false} BytesAppend(s: Str, t: Str)
    ensures Bytes(s + t) == Bytes(s) + Bytes(t)
    ensures ByteLen(s + t) == ByteLen(s) + ByteLen(t)
  {
    hide Encode, Width, ByteLen;
    ByteLenAppend(s, t);
    if t == [] {
      assert s + t == s;
    } else {
      var n := |t| - 1;
      BytesAppend(s, t[..n]);
      assert (s + t)[..|s| + n] == s + t[..n] && (s + t)[|s| + n] == t[n];
      assert Bytes(s + t) == Bytes(s + t[..n]) + Encode(t[n]);
    }
  }

  // ----- decoding -----

  /** The leading byte announces this many bytes in all; none for a byte that cannot lead. */
  function Announced(lead: Byte): nat {
    if lead < 0x80 then 1 else if lead < 0xC0 then 0 else if lead < 0xE0 then 2
    else if lead < 0xF0 then 3 else if lead < 0xF8 then 4 else 0
  }

  /** The sum of the payload bits: those of the leading byte, then six from each continuation byte. */
  function Payload(bytes: Text): int
    requires bytes != [] && |bytes| == Announced(bytes[0])
    requires forall k | 1 <= k < |bytes| :: IsContinuation(bytes[k])
  {
    var b: seq<int> := bytes;
    if |b| == 1 then b[0]
    else if |b| == 2 then (b[0] - 0xC0) * 0x40 + (b[1] - 0x80)
    else if |b| == 3 then (b[0] - 0xE0) * 0x1000 + (b[1] - 0x80) * 0x40 + (b[2] - 0x80)
    else (b[0] - 0xF0) * 0x40000 + (b[1] - 0x80) * 0x1000 + (b[2] - 0x80) * 0x40 + (b[3] - 0x80)
  }

  /** The one character that some bytes are, refusing surrogates and forms longer than needed. */
  function DecodeOne(bytes: Text): Option<Rune> {
    if bytes == [] || |bytes| != Announced(bytes[0]) || exists k | 1 <= k < |bytes| :: !IsContinuation(bytes[k]) then None
    else
      var c := Payload(bytes);
      if IsRune(c) && Width(c) == |bytes| then Some(c) else None
  }

  /** Reading UTF-8 (RFC 3629, section 3) from the front. */
  function Decode(bytes: Text): Option<Str> {
    if bytes == [] then Some([])
    else
      var width := Announced(bytes[0]);
      if width == 0 || width > |bytes| then None
      else match (DecodeOne(bytes[..width]), Decode(bytes[width..]))
        case (Some(c), Some(rest)) => Some([c] + rest)
        case _ => None
  }

  /** Splitting a number into groups of six bits. */
  lemma SixBitGroups(c: nat)
    ensures c == c / 0x40 * 0x40 + c % 0x40
    ensures c / 0x40 == c / 0x1000 * 0x40 + c / 0x40 % 0x40
    ensures c / 0x1000 == c / 0x40000 * 0x40 + c / 0x1000 % 0x40
  {
  }

  lemma DecodeOneOfEncode(c: Rune)
    ensures Announced(Encode(c)[0]) == Width(c) && DecodeOne(Encode(c)) == Some(c)
  {
    SixBitGroups(c);
    var bytes := Encode(c);
    if Width(c) == 1 {
    } else if Width(c) == 2 {
      assert bytes == [0xC0 + c / 0x40, 0x80 + c % 0x40];
    } else if Width(c) == 3 {
      assert bytes == [0xE0 + c / 0x1000, 0x80 + c / 0x40 % 0x40, 0x80 + c % 0x40];
    } else {
      assert bytes == [0xF0 + c / 0x40000, 0x80 + c / 0x1000 % 0x40, 0x80 + c / 0x40 % 0x40, 0x80 + c % 0x40];
    }
    assert Announced(bytes[0]) == Width(c);
    assert Payload(bytes) == c;
  }

  lemma EncodeOfDecodeOne(bytes: Text)
    ensures DecodeOne(bytes).Some? ==> Encode(DecodeOne(bytes).value) == bytes
  {
    if DecodeOne(bytes).Some? {
      var c := DecodeOne(bytes).value;
      hide DecodeOne;
      if |bytes| == 2 {
        TwoByteForm(bytes, c);
      } else if |bytes| == 3 {
        ThreeByteForm(bytes, c);
      } else if |bytes| == 4 {
        FourByteForm(bytes, c);
      }
    }
  }

  lemma TwoByteForm(bytes: seq<int>, c: Rune)
    requires |bytes| == 2 && 0x80 <= bytes[1] < 0xC0 && Width(c) == 2
    requires c == (bytes[0] - 0xC0) * 0x40 + (bytes[1] - 0x80)
    ensures Encode(c) == bytes
  {
  }

  lemma Quotients(a: int, b: int, c: int, d: int)
    requires 0 <= b < 0x40 && 0 <= c < 0x40 && 0 <= d < 0x40
    ensures var n := a * 0x40000 + b * 0x1000 + c * 0x40 + d;
            && n / 0x40000 == a && n / 0x1000 == a * 0x40 + b && n / 0x40 == a * 0x1000 + b * 0x40 + c && n % 0x40 == d
  {
    var n := a * 0x40000 + b * 0x1000 + c * 0x40 + d;
    assert n == (a * 0x1000 + b * 0x40 + c) * 0x40 + d;
    assert n == (a * 0x40 + b) * 0x1000 + (c * 0x40 + d);
    assert n == a * 0x40000 + (b * 0x1000 + c * 0x40 + d);
  }

  lemma ThreeByteForm(bytes: seq<int>, c: Rune)
    requires |bytes| == 3 && 0x80 <= bytes[1] < 0xC0 && 0x80 <= bytes[2] < 0xC0 && Width(c) == 3
    requires c == (bytes[0] - 0xE0) * 0x1000 + (bytes[1] - 0x80) * 0x40 + (bytes[2] - 0x80)
    ensures Encode(c) == bytes
  {
    var q, r, t := bytes[0] - 0xE0, bytes[1] - 0x80, bytes[2] - 0x80;
    Quotients(0, q, r, t);
    assert (q * 0x40 + r) % 0x40 == r;
    assert Encode(c) == [0xE0 + q, 0x80 + r, 0x80 + t];
  }

  lemma FourByteForm(bytes: seq<int>, c: Rune)
    requires |bytes| == 4 && 0x80 <= bytes[1] < 0xC0 && 0x80 <= bytes[2] < 0xC0 && 0x80 <= bytes[3] < 0xC0 && Width(c) == 4
    requires c == (bytes[0] - 0xF0) * 0x40000 + (bytes[1] - 0x80) * 0x1000 + (bytes[2] - 0x80) * 0x40 + (bytes[3] - 0x80)
    ensures Encode(c) == bytes
  {
    var q, r, s, t := bytes[0] - 0xF0, bytes[1] - 0x80, bytes[2] - 0x80, bytes[3] - 0x80;
    Quotients(q, r, s, t);
    assert (q * 0x40 + r) % 0x40 == r && (q * 0x1000 + r * 0x40 + s) % 0x40 == s;
    assert Encode(c) == [0xF0 + q, 0x80 + r, 0x80 + s, 0x80 + t];
  }

  lemma BytesOfFirst(c: Rune, rest: Str)
    ensures Bytes([c] + rest) == Encode(c) + Bytes(rest)
  {
    hide Encode, Width;
    BytesAppend([c], rest);
    assert [c][..0] == [] && Bytes([]) == [];
  }

  /** The bytes of a text say what the text is. */
  lemma {:induction false} DecodeBytes(s: Str)
    ensures Decode(Bytes(s)) == Some(s)
  {
    if s != [] {
      hide Encode, Width, DecodeOne, Bytes, Announced;
      DecodeBytes(s[1..]);
      BytesOfFirst(s[0], s[1..]);
      assert s == [s[0]] + s[1..];
      DecodeOneOfEncode(s[0]);
      assert Bytes(s)[..Width(s[0])] == Encode(s[0]) && Bytes(s)[Width(s[0])..] == Bytes(s[1..]);
    }
  }

  /** Whatever decodes is the UTF-8 form of what it decodes to: no other bytes pass for a text. */
  lemma {:induction false} OnlyBytesDecode(bytes: Text)
    ensures Decode(bytes).Some? ==> Bytes(Decode(bytes).value) == bytes
  {
    hide Encode, DecodeOne, Bytes, Announced, Width;
    if bytes == [] {
      assert Bytes([]) == [] by {
        BytesOfNothing();
      }
    } else if Decode(bytes).Some? {
      var width := Announced(bytes[0]);
      var first, rest := bytes[..width], bytes[width..];
      assert bytes == first + rest;
      EncodeOfDecodeOne(first);
      OnlyBytesDecode(rest);
      BytesOfFirst(DecodeOne(first).value, Decode(rest).value);
    }
  }

  lemma BytesOfNothing()
    ensures Bytes([]) == []
  {
  }

  // ----- character boundaries -----

  /** The byte offset in front of character `i`. */
  function Off(s: Str, i: nat): nat
    requires i <= |s|
  {
    ByteLen(s[..i])
  }

  lemma {:induction false} OffGrows(s: Str, i: nat, j: nat)
    requires i <= j <= |s|
    ensures Off(s, i) + (j - i) <= Off(s, j) <= ByteLen(s)
    decreases |s| - i
  {
    assert s[..|s|] == s;
    if i < j {
      assert s[..i + 1][..i] == s[..i];
      OffGrows(s, i + 1, j);
    } else if j < |s| {
      assert s[..j + 1][..j] == s[..j];
      OffGrows(s, j + 1, j + 1);
    }
  }

  lemma OffStep(s: Str, i: nat)
    requires i < |s|
    ensures Off(s, i + 1) == Off(s, i) + Width(s[i])
  {
    assert s[..i + 1][..i] == s[..i];
  }

  /** The number of characters that end at or before byte offset `o`. */
  function FloorIndex(s: Str, o: nat): (i: nat)
    ensures i <= |s|
    ensures Off(s, i) <= o
    ensures i < |s| ==> o < Off(s, i + 1)
  {
    assert s[..|s|] == s;
    if ByteLen(s) <= o then |s|
    else
      var n := |s| - 1;
      var i := FloorIndex(s[..n], o);
      assert s[..n][..i] == s[..i];
      assert i < n ==> s[..n][..i + 1] == s[..i + 1];
      i
  }

  /** The largest character boundary not above `o`. */
  function Floor(s: Str, o: nat): nat {
    Off(s, FloorIndex(s, o))
  }

  predicate IsBoundary(s: Str, o: nat) {
    Floor(s, o) == o
  }

  lemma FloorIndexIsUnique(s: Str, o: nat, i: nat)
    requires i <= |s| && Off(s, i) <= o && (i < |s| ==> o < Off(s, i + 1))
    ensures FloorIndex(s, o) == i
  {
    var j := FloorIndex(s, o);
    if j < i {
      OffGrows(s, j + 1, i);
    } else if i < j {
      OffGrows(s, i + 1, j);
    }
  }

  lemma OffIsBoundary(s: Str, i: nat)
    requires i <= |s|
    ensures FloorIndex(s, Off(s, i)) == i && IsBoundary(s, Off(s, i))
  {
    if i < |s| {
      OffStep(s, i);
    }
    FloorIndexIsUnique(s, Off(s, i), i);
  }

  lemma EndsAreBoundaries(s: Str)
    ensures IsBoundary(s, 0) && FloorIndex(s, 0) == 0
    ensures IsBoundary(s, ByteLen(s)) && FloorIndex(s, ByteLen(s)) == |s|
  {
    assert s[..0] == [] && s[..|s|] == s;
    OffIsBoundary(s, 0);
    OffIsBoundary(s, |s|);
  }

  lemma FloorIsMonotone(s: Str, o: nat, o': nat)
    requires o <= o'
    ensures FloorIndex(s, o) <= FloorIndex(s, o') && Floor(s, o) <= Floor(s, o') <= o'
  {
    var i, j := FloorIndex(s, o), FloorIndex(s, o');
    if j < i {
      OffGrows(s, j + 1, i);
    } else {
      OffGrows(s, i, j);
    }
  }

  /** `Floor` is what it says: a boundary, not above `o`, and no boundary lies between. */
  lemma FloorIsLargestBoundary(s: Str, o: nat, b: nat)
    ensures IsBoundary(s, Floor(s, o)) && Floor(s, o) <= o
    ensures IsBoundary(s, b) && b <= o ==> b <= Floor(s, o)
  {
    OffIsBoundary(s, FloorIndex(s, o));
    if IsBoundary(s, b) && b <= o {
      FloorIsMonotone(s, b, o);
    }
  }

  /** The bytes of character `i` sit behind those of the characters before it. */
  lemma {:induction false} ByteOfChar(s: Str, i: nat, k: nat)
    requires i < |s| && k < Width(s[i])
    ensures Off(s, i) + k < |Bytes(s)|
    ensures Bytes(s)[Off(s, i) + k] == Encode(s[i])[k]
  {
    hide Encode, Width;
    var n := |s| - 1;
    BytesLength(s[..n]);
    if i < n {
      ByteOfChar(s[..n], i, k);
      assert s[..n][..i] == s[..i];
    } else {
      assert s[..i] == s[..n];
    }
  }

  /** Every byte belongs to a character. */
  lemma CharOfByte(s: Str, o: nat)
    requires o < ByteLen(s)
    ensures var i := FloorIndex(s, o);
            && o < |Bytes(s)| && i < |s| && Off(s, i) <= o < Off(s, i) + Width(s[i])
            && Bytes(s)[o] == Encode(s[i])[o - Off(s, i)]
  {
    hide Encode, Width, Bytes, FloorIndex;
    BytesLength(s);
    var i := FloorIndex(s, o);
    assert s[..|s|] == s;
    OffStep(s, i);
    ByteOfChar(s, i, o - Off(s, i));
  }

  /** The standard library's test, on bytes: a boundary is an end of the text or a leading byte. */
  predicate IsCharBoundary(s: Str, o: nat) {
    o == 0 || o == |Bytes(s)| || (o < |Bytes(s)| && !IsContinuation(Bytes(s)[o]))
  }

  lemma CharBoundaryIsBoundary(s: Str, o: nat)
    ensures IsCharBoundary(s, o) <==> o <= ByteLen(s) && IsBoundary(s, o)
  {
    hide Encode, Width, Bytes, FloorIndex;
    BytesLength(s);
    EndsAreBoundaries(s);
    if o < ByteLen(s) {
      CharOfByte(s, o);
    }
  }

  /** A newline byte is a whole character. */
  lemma NewlineIsAChar(s: Str, k: nat)
    requires k < |Bytes(s)| && Bytes(s)[k] == 10
    ensures k < ByteLen(s) && IsBoundary(s, k) && IsBoundary(s, k + 1)
    ensures FloorIndex(s, k) < |s| && s[FloorIndex(s, k)] == NEWLINE && FloorIndex(s, k + 1) == FloorIndex(s, k) + 1
  {
    hide Encode, Bytes, FloorIndex;
    BytesLength(s);
    CharOfByte(s, k);
    var i := FloorIndex(s, k);
    OffStep(s, i);
    OffIsBoundary(s, i);
    OffIsBoundary(s, i + 1);
  }

  // ----- substrings by byte offsets -----

  /** `text.get(start..end)`: nothing unless both offsets are boundaries in order. */
  function Get(s: Str, start: nat, end: nat): Option<Str> {
    if start <= end <= ByteLen(s) && IsBoundary(s, start) && IsBoundary(s, end) then
      FloorIsMonotone(s, start, end);
      Some(s[FloorIndex(s, start)..FloorIndex(s, end)])
    else None
  }

  /** Replaces the bytes between two boundaries. */
  function ReplaceRange(s: Str, start: nat, end: nat, with: Str): Str
    requires start <= end <= ByteLen(s) && IsBoundary(s, start) && IsBoundary(s, end)
  {
    s[..FloorIndex(s, start)] + with + s[FloorIndex(s, end)..]
  }

  lemma BytesSplit(s: Str, i: nat)
    requires i <= |s|
    ensures Off(s, i) <= |Bytes(s)|
    ensures Bytes(s[..i]) == Bytes(s)[..Off(s, i)] && Bytes(s[i..]) == Bytes(s)[Off(s, i)..]
  {
    hide Bytes, ByteLen;
    BytesAppend(s[..i], s[i..]);
    BytesLength(s[..i]);
    assert s == s[..i] + s[i..];
  }

  /** On bytes the replacement is a splice. */
  lemma ReplaceRangeSplices(s: Str, start: nat, end: nat, with: Str)
    requires start <= end <= ByteLen(s) && IsBoundary(s, start) && IsBoundary(s, end)
    ensures end <= |Bytes(s)|
    ensures Bytes(ReplaceRange(s, start, end, with)) == Bytes(s)[..start] + Bytes(with) + Bytes(s)[end..]
    ensures Splices(Change(start, end, start + ByteLen(with)), Bytes(s), Bytes(ReplaceRange(s, start, end, with)))
  {
    hide Bytes, ByteLen, FloorIndex;
    var i, j := FloorIndex(s, start), FloorIndex(s, end);
    BytesSplit(s, i);
    BytesSplit(s, j);
    BytesAppend(s[..i] + with, s[j..]);
    BytesAppend(s[..i], with);
    BytesLength(with);
  }
}
