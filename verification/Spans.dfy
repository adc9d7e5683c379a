/** Half-open byte ranges and the text edits that move them. */
module Spans {

  datatype Option<+T> = None | Some(value: T)

  type Byte = b: int | 0 <= b < 256

  /** A source text, as the bytes that spans index. */
  type Text = seq<Byte>

  /** The bytes from `start` up to but not including `end`, of the text at revision `rev`. */
  datatype Range = Range(start: nat, end: nat, rev: nat) {

    predicate Contains(other: Range) {
      start <= other.start && other.end <= end
    }

    predicate ContainsOffset(offset: nat) {
      start <= offset < end
    }

    predicate Overlaps(other: Range) {
      start < other.end && other.start < end
    }

    function Len(): nat
      requires start <= end
    {
      end - start
    }
  }

  /** The ranges that the constructor accepts: its assertion rules out the others. */
  type Span = r: Range | r.start <= r.end witness Range(0, 0, 0)

  /** The bytes of `text` that `span` selects. */
  function Slice<T>(text: seq<T>, span: Span): seq<T>
    requires span.end <= |text|
  {
    text[span.start..span.end]
  }

  /** Overlap means a shared byte, for spans that have any bytes at all. */
  lemma OverlapIsASharedByte(s: Span, t: Span)
    ensures (exists o: nat :: s.ContainsOffset(o) && t.ContainsOffset(o)) <==>
            s.Overlaps(t) && s.Len() > 0 && t.Len() > 0
  {
    if s.Overlaps(t) && s.Len() > 0 && t.Len() > 0 {
      var o := if s.start < t.start then t.start else s.start;
      assert s.ContainsOffset(o) && t.ContainsOffset(o);
    }
  }

  /** The old range `[start, oldEnd)` is replaced by the new range `[start, newEnd)`. */
  datatype Change = Change(start: nat, oldEnd: nat, newEnd: nat) {

    predicate IsInsertion() {
      start == oldEnd
    }

    function MapPos(pos: nat): nat {
      if pos <= start then pos
      else if pos >= oldEnd then newEnd + (pos - oldEnd)
      else newEnd
    }

    function MapEnd(pos: nat): nat {
      if IsInsertion() then
        if pos < start then pos else newEnd + (pos - oldEnd)
      else if pos <= start then pos
      else if pos < oldEnd then newEnd
      else newEnd + (pos - oldEnd)
    }

    predicate Touches(span: Range) {
      if IsInsertion() then span.start <= start <= span.end
      else span.start < oldEnd && start < span.end
    }
  }

  /** The edits that `Edit::replace` accepts. */
  type Edit = c: Change | c.start <= c.oldEnd && c.start <= c.newEnd witness Change(0, 0, 0)

  /** Remaps a span; the result is again a well-formed span. */
  function MapSpan(span: Span, e: Edit, rev: nat): (mapped: Span)
    ensures mapped.rev == rev
  {
    Range(e.MapPos(span.start), e.MapEnd(span.end), rev)
  }

  /** `after` is `before` with the edit's old range replaced by something of the announced length. */
  ghost predicate Splices<T>(e: Edit, before: seq<T>, after: seq<T>) {
    && e.oldEnd <= |before|
    && e.newEnd <= |after|
    && before[..e.start] == after[..e.start]
    && before[e.oldEnd..] == after[e.newEnd..]
  }

  /** A span the edit does not touch selects the same bytes after remapping. */
  lemma UntouchedTextIsKept<T>(e: Edit, before: seq<T>, after: seq<T>, span: Span, rev: nat)
    requires Splices(e, before, after)
    requires span.end <= |before|
    ensures MapSpan(span, e, rev).end <= |after|
    ensures !e.Touches(span) ==> Slice(after, MapSpan(span, e, rev)) == Slice(before, span)
  {
    assert |before[e.oldEnd..]| == |after[e.newEnd..]|;
    if !e.Touches(span) {
      var m := MapSpan(span, e, rev);
      if span.end <= e.start {
        SliceOfPrefix(before, span, e.start);
        SliceOfPrefix(after, m, e.start);
      } else {
        SliceOfSuffix(before, span, e.oldEnd);
        SliceOfSuffix(after, m, e.newEnd);
      }
    }
  }

  lemma SliceOfPrefix<T>(text: seq<T>, span: Span, n: nat)
    requires span.end <= n <= |text|
    ensures Slice(text, span) == text[..n][span.start..span.end]
  {
  }

  lemma SliceOfSuffix<T>(text: seq<T>, span: Span, n: nat)
    requires n <= span.start && span.end <= |text|
    ensures Slice(text, span) == text[n..][span.start - n..span.end - n]
  {
  }

  /**
    * Where a position goes.  Up to the edit it stays, with the text in front of it.  Past the edit, or
    * inside the replaced range, the text behind it stays, what was replaced not included.  An end differs
    * from a start at the point of an insertion only: there it takes in what is inserted.
    */
  lemma PositionsKeepTheirSide<T>(e: Edit, before: seq<T>, after: seq<T>, pos: nat)
    requires Splices(e, before, after) && pos <= |before|
    ensures e.MapPos(pos) <= |after| && e.MapEnd(pos) <= |after|
    ensures var rest := before[if pos < e.oldEnd then e.oldEnd else pos..];
            && (if pos <= e.start then after[..e.MapPos(pos)] == before[..pos] else after[e.MapPos(pos)..] == rest)
            && (if pos < e.start || (pos == e.start && !e.IsInsertion()) then after[..e.MapEnd(pos)] == before[..pos]
                else after[e.MapEnd(pos)..] == rest)
  {
    assert |before[e.oldEnd..]| == |after[e.newEnd..]|;
    if pos <= e.start {
      assert after[..pos] == after[..e.start][..pos] && before[..pos] == before[..e.start][..pos];
    }
    if e.oldEnd <= pos {
      var k := pos - e.oldEnd;
      assert before[pos..] == before[e.oldEnd..][k..] && after[e.newEnd + k..] == after[e.newEnd..][k..];
    }
  }

  /** Nesting survives the remapping, and a touched child has a touched parent. */
  lemma NestingIsKept(e: Edit, parent: Span, child: Span, rev: nat)
    requires parent.Contains(child)
    ensures MapSpan(parent, e, rev).Contains(MapSpan(child, e, rev))
    ensures e.Touches(child) ==> e.Touches(parent)
  {
  }

  /** Inside an untouched span everything moves by one common distance. */
  lemma UntouchedMovesRigidly(e: Edit, parent: Span, child: Span, rev: nat)
    requires parent.Contains(child) && !e.Touches(parent)
    ensures var p, c := MapSpan(parent, e, rev), MapSpan(child, e, rev);
            c.start - p.start == child.start - parent.start &&
            c.end - p.start == child.end - parent.start &&
            p.Len() == parent.Len() && c.Len() == child.Len()
  {
  }

  /** A span over the whole text still covers the whole text. */
  lemma WholeTextStaysWhole<T>(e: Edit, before: seq<T>, after: seq<T>, rev: nat, rev': nat)
    requires Splices(e, before, after)
    ensures MapSpan(Range(0, |before|, rev), e, rev') == Range(0, |after|, rev')
    ensures e.Touches(Range(0, |before|, rev))
  {
    assert |before[e.oldEnd..]| == |after[e.newEnd..]|;
  }

  /**
    * `Touches` is exact up to two cases: some texts exist for which the edit changes what the span
    * selects just when the edit touches the span and is neither an insertion of nothing nor a
    * replacement around an empty span.
    */
  lemma TouchesExactly(e: Edit, span: Span, rev: nat)
    ensures (exists before: seq<bool>, after: seq<bool> ::
              Splices(e, before, after) && span.end <= |before| && MapSpan(span, e, rev).end <= |after| &&
              Slice(after, MapSpan(span, e, rev)) != Slice(before, span)) <==>
            e.Touches(span) && if e.IsInsertion() then e.start < e.newEnd else span.Len() > 0
  {
    if e.Touches(span) && if e.IsInsertion() then e.start < e.newEnd else span.Len() > 0 {
      TouchedTextCanChange(e, span, rev);
    } else {
      forall before: seq<bool>, after: seq<bool> | Splices(e, before, after) && span.end <= |before|
        ensures MapSpan(span, e, rev).end <= |after| && Slice(after, MapSpan(span, e, rev)) == Slice(before, span)
      {
        UntouchedTextIsKept(e, before, after, span, rev);
        if e.start == e.oldEnd == e.newEnd {
          assert before == before[..e.start] + before[e.oldEnd..];
          assert after == after[..e.start] + after[e.newEnd..];
        }
      }
    }
  }

  lemma TouchedTextCanChange(e: Edit, span: Span, rev: nat)
    requires e.Touches(span) && if e.IsInsertion() then e.start < e.newEnd else span.Len() > 0
    ensures exists before: seq<bool>, after: seq<bool> ::
              Splices(e, before, after) && span.end <= |before| && MapSpan(span, e, rev).end <= |after| &&
              Slice(after, MapSpan(span, e, rev)) != Slice(before, span)
  {
    var n := if span.end < e.oldEnd then e.oldEnd else span.end;
    var before := seq(n, i => false);
    var after := before[..e.start] + seq(e.newEnd - e.start, i => true) + before[e.oldEnd..];
    assert after[..e.start] == before[..e.start];
    assert after[e.newEnd..] == before[e.oldEnd..];
    var m := MapSpan(span, e, rev);
    if m.Len() == span.Len() {
      var k := e.start - m.start;
      assert 0 <= k < span.Len();
      assert Slice(after, m)[k] == after[e.start] == true;
      assert Slice(before, span)[k] == before[span.start + k] == false;
    }
    assert Splices(e, before, after) && Slice(after, m) != Slice(before, span);
  }
}
