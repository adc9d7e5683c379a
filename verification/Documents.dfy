/** One open editor file: change events become text splices and edits, then the engine runs. */
module Documents {
  import opened Spans
  import opened Arenas
  import opened Invariants
  import opened Edits
  import opened Engines
  import opened Executors
  import opened Runs
  import opened Queries
  import opened Soundness
  import opened Reference
  import opened Histories
  import opened Sessions
  import opened Strings
  import opened Encodings
  import opened LineIndexes
  import opened Conversions

  datatype PositionRange = PositionRange(start: Position, end: Position)

  /** A change event: new text for a range, or for the whole document. */
  datatype ContentChange = ContentChange(range: Option<PositionRange>, text: Str)

  // ----- what the change events mean -----

  function StartOf(text: Str, enc: PositionEncoding, change: ContentChange): nat {
    match change.range
    case None => 0
    case Some(range) => OffsetOf(text, range.start, enc)
  }

  function EndOf(text: Str, enc: PositionEncoding, change: ContentChange): nat {
    match change.range
    case None => ByteLen(text)
    case Some(range) =>
      var start, end := OffsetOf(text, range.start, enc), OffsetOf(text, range.end, enc);
      if end < start then start else end
  }

  function EditOf(text: Str, enc: PositionEncoding, change: ContentChange): Edit {
    Change(StartOf(text, enc, change), EndOf(text, enc, change), StartOf(text, enc, change) + ByteLen(change.text))
  }

  /** The range can be cut out of the text: both ends are character boundaries. */
  predicate Spliceable(text: Str, enc: PositionEncoding, change: ContentChange) {
    IsBoundary(text, StartOf(text, enc, change)) && IsBoundary(text, EndOf(text, enc, change))
  }

  /**
    * A change can be applied exactly when it replaces everything, or its start cuts no character, and
    * its end does not either unless it means an offset at or before the start.
    */
  lemma SpliceableIff(text: Str, enc: PositionEncoding, change: ContentChange)
    ensures Spliceable(text, enc, change) <==>
            change.range.None? ||
            var range := change.range.value;
            CutsNoChar(text, range.start, enc) &&
            (OffsetOf(text, range.end, enc) <= OffsetOf(text, range.start, enc) || CutsNoChar(text, range.end, enc))
  {
    hide ByteLen, OffsetOf, IsBoundary, CutsNoChar;
    EndsAreBoundaries(text);
    if change.range.Some? {
      OffsetIsBoundaryIff(text, change.range.value.start, enc);
      OffsetIsBoundaryIff(text, change.range.value.end, enc);
    }
  }

  /** In UTF-8 there are changes that cannot: column 1 of a two-byte character. */
  lemma CutInsideACharacter()
    ensures var text: Str, at := [0xE9], Position(0, 1);
            Fits(text) && !Spliceable(text, Utf8, ContentChange(Some(PositionRange(at, at)), []))
  {
    var text: Str, at := [0xE9], Position(0, 1);
    assert text[..0] == [] && text[..1] == text;
    assert Bytes(text) == [0xC3, 0xA9] by {
      assert Bytes([]) == [];
    }
    assert Starts(Bytes(text), 0) == [0] && Starts(Bytes(text), 1) == [0] && Starts(Bytes(text), 2) == [0];
    EndsAreBoundaries(text);
    assert ByteLen([]) == 0 && ByteLen(text) == 2;
    assert Get(text, 0, 2) == Some(text);
    FloorIndexIsUnique(text, 1, 0);
  }

  lemma TargetIsInText(text: Str, enc: PositionEncoding, change: ContentChange)
    ensures StartOf(text, enc, change) <= EndOf(text, enc, change) <= ByteLen(text)
  {
    hide ByteLen, OffsetOf, IsBoundary, IsLine, Get, ClampedLine;
    if change.range.Some? {
      var s, e, t := OffsetStaysInLine(text, change.range.value.start, enc);
      var s', e', t' := OffsetStaysInLine(text, change.range.value.end, enc);
    }
  }

  /** In UTF-16 and UTF-32 every change can be applied. */
  lemma WideChangesAreSpliceable(text: Str, enc: PositionEncoding, change: ContentChange)
    requires enc != Utf8
    ensures Spliceable(text, enc, change)
  {
    hide ByteLen, OffsetOf, IsBoundary;
    EndsAreBoundaries(text);
    if change.range.Some? {
      OffsetIsBoundary(text, change.range.value.start, enc);
      OffsetIsBoundary(text, change.range.value.end, enc);
    }
  }

  /** The text after one change: the characters between the two boundaries are replaced. */
  function NextText(text: Str, enc: PositionEncoding, change: ContentChange): Str {
    TargetIsInText(text, enc, change);
    if Spliceable(text, enc, change) then
      ReplaceRange(text, StartOf(text, enc, change), EndOf(text, enc, change), change.text)
    else text
  }

  /** A change of the whole document leaves just the new text. */
  lemma WholeChangeReplacesAll(text: Str, enc: PositionEncoding, change: ContentChange)
    requires change.range.None?
    ensures Spliceable(text, enc, change) && NextText(text, enc, change) == change.text
  {
    EndsAreBoundaries(text);
  }

  /**
    * The text after a change with a range: what is in front of its start, the new text, and what is behind
    * its end, or behind its start if the end comes first.
    */
  lemma RangeIsReplaced(text: Str, enc: PositionEncoding, change: ContentChange)
    requires change.range.Some? && Spliceable(text, enc, change)
    ensures var start, end := OffsetOf(text, change.range.value.start, enc), OffsetOf(text, change.range.value.end, enc);
            && start <= |Bytes(text)| && end <= |Bytes(text)|
            && Bytes(NextText(text, enc, change)) ==
               Bytes(text)[..start] + Bytes(change.text) + Bytes(text)[if end < start then start else end..]
  {
    TargetIsInText(text, enc, change);
    BytesLength(text);
    var s, e, t := OffsetStaysInLine(text, change.range.value.end, enc);
    hide ByteLen, Bytes, OffsetOf, IsBoundary, ReplaceRange, IsLine, Get, ClampedLine;
    ReplaceRangeSplices(text, StartOf(text, enc, change), EndOf(text, enc, change), change.text);
  }

  /** On bytes, the edit handed to the tree describes exactly what happened to the text. */
  lemma ChangeIsASplice(text: Str, enc: PositionEncoding, change: ContentChange)
    requires Spliceable(text, enc, change)
    ensures Splices(EditOf(text, enc, change), Bytes(text), Bytes(NextText(text, enc, change)))
  {
    TargetIsInText(text, enc, change);
    hide ByteLen, Bytes, StartOf, EndOf, IsBoundary, ReplaceRange;
    ReplaceRangeSplices(text, StartOf(text, enc, change), EndOf(text, enc, change), change.text);
  }

  /** The changes applied in order, each read against the text the previous one left. */
  function TextAfter(text: Str, enc: PositionEncoding, changes: seq<ContentChange>): Str {
    if changes == [] then text
    else NextText(TextAfter(text, enc, changes[..|changes| - 1]), enc, changes[|changes| - 1])
  }

  /** The first change from `from` on that cannot be applied when its turn comes, or the batch's length. */
  function FirstStuck(text: Str, enc: PositionEncoding, changes: seq<ContentChange>, from: nat := 0): (k: nat)
    requires from <= |changes|
    ensures from <= k <= |changes|
    ensures forall j: nat | from <= j < k :: Spliceable(TextAfter(text, enc, changes[..j]), enc, changes[j])
    ensures k < |changes| ==> !Spliceable(TextAfter(text, enc, changes[..k]), enc, changes[k])
    decreases |changes| - from
  {
    if from == |changes| || !Spliceable(TextAfter(text, enc, changes[..from]), enc, changes[from]) then from
    else FirstStuck(text, enc, changes, from + 1)
  }

  lemma FirstIsStuck(text: Str, enc: PositionEncoding, changes: seq<ContentChange>, k: nat)
    requires k <= |changes|
    requires forall j: nat | j < k :: Spliceable(TextAfter(text, enc, changes[..j]), enc, changes[j])
    requires k < |changes| ==> !Spliceable(TextAfter(text, enc, changes[..k]), enc, changes[k])
    ensures FirstStuck(text, enc, changes) == k
  {
    hide Spliceable, TextAfter;
  }

  /** In UTF-16 and UTF-32 no batch ever gets stuck. */
  lemma WideBatchesGoThrough(text: Str, enc: PositionEncoding, changes: seq<ContentChange>)
    requires enc != Utf8
    ensures FirstStuck(text, enc, changes) == |changes|
  {
    var k := FirstStuck(text, enc, changes);
    if k < |changes| {
      WideChangesAreSpliceable(TextAfter(text, enc, changes[..k]), enc, changes[k]);
    }
  }

  /** What change `k` of the batch is to the parse tree. */
  ghost function EventOf<C>(text: Str, enc: PositionEncoding, changes: seq<ContentChange>, k: nat): Event<C>
    requires k < |changes|
  {
    var before := TextAfter(text, enc, changes[..k]);
    Edited(EditOf(before, enc, changes[k]), Bytes(TextAfter(text, enc, changes[..k + 1])))
  }

  ghost function EventsOf<C>(text: Str, enc: PositionEncoding, changes: seq<ContentChange>, n: nat): (events: seq<Event<C>>)
    requires n <= |changes|
    ensures |events| == n && forall k | 0 <= k < n :: events[k] == EventOf(text, enc, changes, k)
  {
    seq(n, k requires 0 <= k < |changes| => EventOf(text, enc, changes, k))
  }

  // ----- the document -----

  class Document<C(==, !new)> {
    var text: Str
    const session: Session<C>
    var version: int
    const encoding: PositionEncoding
    var index: LineIndex
    ghost const rootCtx: C
    ghost var states: seq<Snapshot<C>>
    ghost var history: seq<Event<C>>

    /**
      * The index is that of the text, the tree is consistent and covers exactly the text, and the
      * document has got here by the edits and runs of its history.
      */
    ghost predicate Valid()
      reads this, session, session.tree
    {
      && session.Valid()
      && index == IndexOf(text) && Fits(text)
      && CoversText(Current(), rootCtx)
      && Behaves(states, history, rootCtx) && states[|history|] == Current()
    }

    ghost function Current(): Snapshot<C>
      reads this, session, session.tree
    {
      Snapshot(session.tree.nodes, session.tree.rev, Bytes(text))
    }

    constructor Open(version: int, text: Str, encoding: PositionEncoding, rootCtx: C)
      requires Fits(text)
      ensures Valid() && fresh(session) && fresh(session.tree)
      ensures this.text == text && this.version == version && this.encoding == encoding
      ensures session.tree.rev == 0 && session.tree.nodes == [RootNode(Range(0, ByteLen(text), 0), rootCtx)]
      ensures history == []
    {
      BytesLength(text);
      var index := NewIndex(text);
      var session := new Session(0, Range(0, ByteLen(text), 0), rootCtx);
      this.text, this.version, this.encoding, this.index, this.session := text, version, encoding, index, session;
      this.rootCtx := rootCtx;
      states := [Snapshot(session.tree.nodes, session.tree.rev, Bytes(text))];
      history := [];
    }

    /** The byte offset that a position means in the current text. */
    method OffsetAt(position: Position) returns (offset: nat)
      requires index == IndexOf(text) && Fits(text)
      ensures offset == OffsetOf(text, position, encoding)
    {
      var found := LineIndexes.Offset(index, text, position, encoding);
      // Clamping the line means that there always is an offset.
      assert found.Some?;
      offset := found.value;
    }

    /** Where a span lies, as two positions. */
    method RangeOf(span: Span) returns (range: PositionRange)
      requires index == IndexOf(text)
      ensures range == PositionRange(PositionOf(text, span.start, encoding), PositionOf(text, span.end, encoding))
    {
      var start := FindPosition(index, text, span.start, encoding);
      var end := FindPosition(index, text, span.end, encoding);
      range := PositionRange(start, end);
    }

    /** One change event: splices the text, edits the tree, and rebuilds the index; or cuts a character and fails. */
    method ApplyChange(change: ContentChange) returns (applied: bool)
      requires Valid() && Fits(NextText(text, encoding, change))
      modifies this, session.tree
      ensures Valid() && version == old(version)
      ensures applied == Spliceable(old(text), encoding, change)
      ensures text == NextText(old(text), encoding, change)
      ensures if applied then
                var s, edit := old(Current()), EditOf(old(text), encoding, change);
                && Splices(edit, s.source, Bytes(text)) && Restartable(s.arena)
                && Current() == Snapshot(EditAll(s.arena, edit, s.rev + 1), s.rev + 1, Bytes(text))
                && history == old(history) + [Edited(edit, Bytes(text))]
              else
                text == old(text) && Current() == old(Current()) && history == old(history)
    {
      hide ByteLen, Bytes, IndexOf, Fits, CoversText, IsBoundary, ReplaceRange, OffsetOf, Splices, Restartable,
        NextText, EditOf, Spliceable, Consistent, Behaves, Leads;
      ghost var s, edit := Current(), EditOf(text, encoding, change);
      SpliceIsCheckable(text, encoding, change);
      match change.range {
        case None =>
          ChangeIsPrepared(s, text, encoding, change, rootCtx);
          var edit := Change(0, ByteLen(text), ByteLen(change.text));
          text := change.text;
          session.Edit(edit);
        case Some(range) =>
          var start := OffsetAt(range.start);
          var end := OffsetAt(range.end);
          end := if end < start then start else end;
          var edit := Change(start, end, start + ByteLen(change.text));
          if !IsBoundary(text, start) || !IsBoundary(text, end) {
            return false;
          }
          ChangeIsPrepared(s, text, encoding, change, rootCtx);
          text := ReplaceRange(text, start, end, change.text);
          session.Edit(edit);
      }
      index := NewIndex(text);
      ghost var event := Edited(edit, Bytes(text));
      EditLeads(s, edit, Bytes(text), Current());
      BehaviourExtends(states, history, event, Current(), rootCtx);
      states, history := states + [Current()], history + [event];
      applied := true;
    }

    /** Change events in order, each read against the text that the one before it left; `n` of them got through. */
    method ApplyInOrder(changes: seq<ContentChange>) returns (n: nat)
      requires Valid()
      requires forall k: nat | k <= |changes| :: Fits(TextAfter(text, encoding, changes[..k]))
      modifies this, session.tree
      ensures Valid() && version == old(version)
      ensures n == FirstStuck(old(text), encoding, changes)
      ensures text == TextAfter(old(text), encoding, changes[..n])
      ensures session.tree.rev == old(session.tree.rev) + n
      ensures history == old(history) + EventsOf(old(text), encoding, changes, n)
    {
      hide ByteLen, Bytes, IndexOf, Fits, CoversText, NextText, Spliceable, Behaves, Splices, Restartable, EditAll, Consistent;
      ghost var first := text;
      assert changes[..0] == [];
      for k := 0 to |changes|
        invariant Valid() && first == old(text) && version == old(version)
        invariant text == TextAfter(first, encoding, changes[..k])
        invariant session.tree.rev == old(session.tree.rev) + k
        invariant history == old(history) + EventsOf(first, encoding, changes, k)
        invariant forall j: nat | j < k :: Spliceable(TextAfter(first, encoding, changes[..j]), encoding, changes[j])
      {
        BatchStep(first, encoding, changes, k);
        var applied := ApplyChange(changes[k]);
        if !applied {
          FirstIsStuck(first, encoding, changes, k);
          return k;
        }
        assert EventsOf<C>(first, encoding, changes, k + 1) == EventsOf(first, encoding, changes, k) + [EventOf(first, encoding, changes, k)];
      }
      assert changes[..|changes|] == changes;
      FirstIsStuck(first, encoding, changes, |changes|);
      n := |changes|;
    }

    /** One run of the engine on the current text, recorded in the history. */
    method RunOnce(engine: Engine<C>, exec: Executor<C>, token: Polls) returns (report: Report)
      requires Valid() && Contract(exec)
      modifies this`states, this`history, session.tree`nodes
      ensures Valid() && history == old(history) + [Ran(engine, exec, token)]
      ensures states == old(states) + [Current()]
      ensures var p := Runs.Run(engine, Bytes(text), old(session.tree.nodes), exec, token);
              session.tree.nodes == p.arena && report == p.report
    {
      hide ByteLen, Bytes, IndexOf, Fits, CoversText, Leads, Behaves, Contract, RunFrom, Consistent;
      ghost var s := Current();
      report := session.Run(engine, Bytes(text), exec, token);
      ghost var event := Ran(engine, exec, token);
      RunLeads(engine, s, exec, token, Current());
      EventKeepsConsistent(s, event, Current(), rootCtx);
      BehaviourExtends(states, history, event, Current(), rootCtx);
      states, history := states + [Current()], history + [event];
    }

    /**
      * A batch of change events and one run of the engine.  A change that cuts a character stops the
      * batch: there is no run, no new version and no report.
      */
    method ApplyChanges(engine: Engine<C>, version: int, changes: seq<ContentChange>, exec: Executor<C>, token: Polls)
        returns (report: Option<Report>)
      requires Valid() && Contract(exec)
      requires forall k: nat | k <= |changes| :: Fits(TextAfter(text, encoding, changes[..k]))
      modifies this, session.tree
      ensures Valid()
      ensures var n := FirstStuck(old(text), encoding, changes);
              && text == TextAfter(old(text), encoding, changes[..n])
              && session.tree.rev == old(session.tree.rev) + n
              && report.Some? == (n == |changes|)
              && this.version == (if n == |changes| then version else old(this.version))
              && history == old(history) + EventsOf(old(text), encoding, changes, n) +
                            (if n == |changes| then [Ran(engine, exec, token)] else [])
      ensures report.Some? ==>
                |states| == |history| + 1 && report.value == Runs.Run(engine, Bytes(text), states[|history| - 1].arena, exec, token).report
    {
      hide ByteLen, Bytes, IndexOf, Fits, CoversText, TextAfter, Leads, Contract, RunFrom, Consistent;
      var n := ApplyInOrder(changes);
      if n < |changes| {
        return None;
      }
      this.version := version;
      var outcome := RunOnce(engine, exec, token);
      report := Some(outcome);
    }
  }

  /** The boundary test on the two offsets is the one that decides. */
  lemma SpliceIsCheckable(text: Str, enc: PositionEncoding, change: ContentChange)
    ensures change.range.None? ==> Spliceable(text, enc, change)
    ensures change.range.Some? ==>
              var start, end := OffsetOf(text, change.range.value.start, enc), OffsetOf(text, change.range.value.end, enc);
              Spliceable(text, enc, change) <==> IsBoundary(text, start) && IsBoundary(text, if end < start then start else end)
    ensures !Spliceable(text, enc, change) ==> NextText(text, enc, change) == text
  {
    hide ByteLen, OffsetOf, IsBoundary;
    EndsAreBoundaries(text);
  }

  lemma BatchStep(text: Str, enc: PositionEncoding, changes: seq<ContentChange>, k: nat)
    requires k < |changes|
    ensures TextAfter(text, enc, changes[..k + 1]) == NextText(TextAfter(text, enc, changes[..k]), enc, changes[k])
  {
    hide NextText;
    assert changes[..k + 1][..k] == changes[..k];
  }

  lemma BehaviourExtends<C(!new)>(
      states: seq<Snapshot<C>>, history: seq<Event<C>>, event: Event<C>, t: Snapshot<C>, ctx: C)
    requires Behaves(states, history, ctx) && Leads(states[|history|], event, t)
    ensures Behaves(states + [t], history + [event], ctx)
    ensures (states + [t])[|history + [event]|] == t
    ensures (states + [t])[|history|] == states[|history|]
  {
    hide Leads;
  }

  lemma EditLeads<C(!new)>(s: Snapshot<C>, edit: Edit, text: Text, t: Snapshot<C>)
    requires Splices(edit, s.source, text) && Restartable(s.arena)
    requires t == Snapshot(EditAll(s.arena, edit, s.rev + 1), s.rev + 1, text)
    ensures Leads(s, Edited(edit, text), t)
  {
  }

  lemma RunLeads<C(!new)>(engine: Engine<C>, s: Snapshot<C>, exec: Executor<C>, token: Polls, t: Snapshot<C>)
    requires Contract(exec) && t == Snapshot(Run(engine, s.source, s.arena, exec, token).arena, s.rev, s.source)
    ensures Leads(s, Ran(engine, exec, token), t)
  {
  }

  /** What one change event does, in the two forms the code takes it in. */
  lemma ChangeIsPrepared<C>(s: Snapshot<C>, text: Str, enc: PositionEncoding, change: ContentChange, ctx: C)
    requires Consistent(s.arena, s.rev) && CoversText(s, ctx) && s.source == Bytes(text) && Spliceable(text, enc, change)
    ensures var next := NextText(text, enc, change); var edit := EditOf(text, enc, change);
            && Splices(edit, Bytes(text), Bytes(next)) && Restartable(s.arena)
            && CoversText(Snapshot(EditAll(s.arena, edit, s.rev + 1), s.rev + 1, Bytes(next)), ctx)
            && match change.range
               case None => next == change.text && edit == Change(0, ByteLen(text), ByteLen(change.text))
               case Some(range) =>
                 var start, end := OffsetOf(text, range.start, enc), OffsetOf(text, range.end, enc);
                 var end' := if end < start then start else end;
                 && end' <= ByteLen(text) && IsBoundary(text, start) && IsBoundary(text, end')
                 && next == ReplaceRange(text, start, end', change.text)
                 && edit == Change(start, end', start + ByteLen(change.text))
  {
    hide ByteLen, Bytes, IsBoundary, ReplaceRange, OffsetOf, Splices, Restartable, Consistent, CoversText;
    TargetIsInText(text, enc, change);
    ChangeIsASplice(text, enc, change);
    EditKeepsCover(s, EditOf(text, enc, change), Bytes(NextText(text, enc, change)), ctx);
    if change.range.None? {
      WholeChangeReplacesAll(text, enc, change);
    }
  }

  /**
    * What a document is worth: with slice-local passes on a levelled schedule, one engine, and runs
    * that are not cut short, after any batches of changes the tree is the parse of the current text.
    */
  lemma DocumentTreeIsScratch<C(!new)>(doc: Document<C>, engine: Engine<C>, level: C -> nat)
    requires doc.Valid() && DrivenBy(engine, doc.history, |doc.history|)
    requires AllLocal(engine) && Levelled(engine, level) && level(doc.rootCtx) == 0
    requires forall k | 0 <= k < |doc.history| :: Uncut(doc.history[k])
    requires doc.history != [] && doc.history[|doc.history| - 1].Ran?
    ensures var s := doc.Current();
            && |s.arena| > 0 && ChildrenPointBack(s.arena)
            && Abstract(s.arena, 0) == Scratch(engine, s.source, Range(0, |s.source|, s.rev), doc.rootCtx)
  {
    hide AllLocal, Levelled, Uncut, Leads, Parse, Abstract, Consistent, ChildrenPointBack;
    EditAndRerunIsScratch(engine, doc.states, doc.history, doc.rootCtx, |doc.history|, level);
  }

  /** Every live span of a document lies in its text. */
  lemma DocumentSpansAreInText<C(!new)>(doc: Document<C>, i: nat)
    requires doc.Valid() && i < |doc.session.tree.nodes| && doc.session.tree.nodes[i].alive
    ensures doc.session.tree.nodes[i].span.end <= ByteLen(doc.text)
    ensures doc.session.tree.nodes[i].span.rev == doc.session.tree.rev
  {
    BytesLength(doc.text);
    SpansFollowTheRoot(doc.session.tree.nodes, doc.session.tree.rev, i);
  }
}
