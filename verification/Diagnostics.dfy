/** Diagnostics from a tree: which nodes the hook is offered, in what order, and what becomes of its answers. */
module Diagnostics {
  import opened Spans
  import opened Arenas
  import opened Invariants
  import opened Strings
  import opened Encodings
  import opened LineIndexes
  import opened Conversions
  import opened Histories
  import opened Documents

  /** A node offered to the hook. */
  datatype FailedNode<C> = FailedNode(id: nat, ctx: C, status: Status, span: Span)

  datatype Diagnostic = Diagnostic(range: PositionRange, message: Str)

  /** The range a diagnostic has when the hook did not compute one. */
  const NO_RANGE := PositionRange(Position(0, 0), Position(0, 0))

  /** A stateful hook answers according to the calls it has had before. */
  type Hook<!C> = (seq<FailedNode<C>>, FailedNode<C>) -> Option<Diagnostic>

  predicate IsFailing<C>(n: Node<C>) {
    n.status == Failed || n.status == Unparsed
  }

  // ----- the walk -----

  /** Ids a walk from `lo` goes down to. */
  predicate Below<C>(a: Arena<C>, lo: nat, ids: seq<nat>) {
    forall k | 0 <= k < |ids| :: lo < ids[k] < |a|
  }

  lemma ChildrenAreBelow<C>(a: Arena<C>, id: nat)
    requires ChildrenPointBack(a) && id < |a|
    ensures Below(a, id, a[id].children)
  {
    forall k | 0 <= k < |a[id].children| ensures id < a[id].children[k] < |a| {
      assert a[id].children[k] in a[id].children;
    }
  }

  /** The nodes a walk offers, in the order it offers them. */
  ghost function Offered<C>(a: Arena<C>, id: nat, underFailure: bool, cascades: bool): seq<nat>
    requires ChildrenPointBack(a) && id < |a|
    decreases |a| - id, 1, 0
  {
    ChildrenAreBelow(a, id);
    var failing := IsFailing(a[id]);
    (if failing && (!underFailure || cascades) then [id] else []) +
    OfferedAll(a, id, a[id].children, underFailure || (failing && !cascades), cascades)
  }

  ghost function OfferedAll<C>(a: Arena<C>, lo: nat, ids: seq<nat>, underFailure: bool, cascades: bool): seq<nat>
    requires ChildrenPointBack(a) && lo < |a| && Below(a, lo, ids)
    decreases |a| - lo, 0, |ids|
  {
    if ids == [] then []
    else OfferedAll(a, lo, ids[..|ids| - 1], underFailure, cascades) + Offered(a, ids[|ids| - 1], underFailure, cascades)
  }

  function NodeFor<C>(a: Arena<C>, id: nat): FailedNode<C>
    requires id < |a|
  {
    FailedNode(id, a[id].ctx, a[id].status, a[id].span)
  }

  /** The nodes of an id list, as the hook sees them. */
  ghost function NodesFor<C>(a: Arena<C>, ids: seq<nat>): (nodes: seq<FailedNode<C>>)
    requires InRange(a, ids)
    ensures |nodes| == |ids| && forall k | 0 <= k < |ids| :: nodes[k] == NodeFor(a, ids[k])
  {
    seq(|ids|, k requires 0 <= k < |ids| && InRange(a, ids) => NodeFor(a, ids[k]))
  }

  /** A diagnostic without a range of its own gets the node's. */
  function Filled<C>(text: Str, enc: PositionEncoding, node: FailedNode<C>, d: Diagnostic): Diagnostic {
    if d.range == NO_RANGE then
      d.(range := PositionRange(PositionOf(text, node.span.start, enc), PositionOf(text, node.span.end, enc)))
    else d
  }

  /** What the hook's answer to one node, after the calls `prior`, is published as. */
  function AnswerTo<C>(text: Str, enc: PositionEncoding, hook: Hook<C>, prior: seq<FailedNode<C>>, node: FailedNode<C>): seq<Diagnostic>
  {
    match hook(prior, node)
    case Some(d) => [Filled(text, enc, node, d)]
    case None => []
  }

  /** What the hook's answers to `nodes`, after the calls `prior`, are published as. */
  function Published<C>(
      text: Str, enc: PositionEncoding, hook: Hook<C>, prior: seq<FailedNode<C>>, nodes: seq<FailedNode<C>>): seq<Diagnostic>
  {
    if nodes == [] then []
    else
      var n := |nodes| - 1;
      Published(text, enc, hook, prior, nodes[..n]) + AnswerTo(text, enc, hook, prior + nodes[..n], nodes[n])
  }

  lemma {:induction false} PublishedAppend<C>(
      text: Str, enc: PositionEncoding, hook: Hook<C>, prior: seq<FailedNode<C>>, nodes: seq<FailedNode<C>>, more: seq<FailedNode<C>>)
    ensures Published(text, enc, hook, prior, nodes + more) ==
            Published(text, enc, hook, prior, nodes) + Published(text, enc, hook, prior + nodes, more)
  {
    hide AnswerTo;
    if more == [] {
      assert nodes + more == nodes;
    } else {
      var n := |more| - 1;
      var all, calls := nodes + more, nodes + more[..n];
      PublishedAppend(text, enc, hook, prior, nodes, more[..n]);
      assert all[..|all| - 1] == calls && all[|all| - 1] == more[n];
      assert prior + calls == prior + nodes + more[..n];
    }
  }

  /** What is published for a hook's answer about a region: its message, and its range or else the region's. */
  predicate Keeps(text: Str, enc: PositionEncoding, span: Span, answer: Diagnostic, published: Diagnostic) {
    && published.message == answer.message
    && (if answer.range != PositionRange(Position(0, 0), Position(0, 0)) then published.range == answer.range
        else
          && published.range.start == PositionOf(text, span.start, enc)
          && published.range.end == PositionOf(text, span.end, enc)
          && OffsetOf(text, published.range.start, enc) == Floor(text, Min(span.start, ByteLen(text)))
          && OffsetOf(text, published.range.end, enc) == Floor(text, Min(span.end, ByteLen(text))))
  }

  /** `out` publishes, in order, the answers that the hook gave: `from[m]` is the node that the `m`-th is about. */
  ghost predicate Answers<C>(
      text: Str, enc: PositionEncoding, hook: Hook<C>, nodes: seq<FailedNode<C>>, out: seq<Diagnostic>, from: seq<nat>)
  {
    && |from| == |out|
    && (forall m | 0 <= m < |from| :: from[m] < |nodes|)
    && (forall l, m | 0 <= l < m < |from| :: from[l] < from[m])
    && (forall k | 0 <= k < |nodes| :: hook(nodes[..k], nodes[k]).Some? <==> k in from)
    && (forall m | 0 <= m < |out| ::
          var k := from[m];
          hook(nodes[..k], nodes[k]).Some? && Keeps(text, enc, nodes[k].span, hook(nodes[..k], nodes[k]).value, out[m]))
  }

  lemma FilledKeeps<C>(text: Str, enc: PositionEncoding, node: FailedNode<C>, d: Diagnostic)
    requires Fits(text)
    ensures Keeps(text, enc, node.span, d, Filled(text, enc, node, d))
  {
    RoundTrip(text, node.span.start, enc);
    RoundTrip(text, node.span.end, enc);
  }

  lemma AnswersOneMore<C>(
      text: Str, enc: PositionEncoding, hook: Hook<C>, nodes: seq<FailedNode<C>>, out: seq<Diagnostic>, from: seq<nat>)
      returns (from': seq<nat>)
    requires nodes != [] && Fits(text) && Answers(text, enc, hook, nodes[..|nodes| - 1], out, from)
    ensures var n := |nodes| - 1;
            Answers(text, enc, hook, nodes, out + AnswerTo(text, enc, hook, nodes[..n], nodes[n]), from')
  {
    hide Keeps, Filled, Fits;
    var n := |nodes| - 1;
    forall k | 0 <= k < n ensures nodes[..n][..k] == nodes[..k] && nodes[..n][k] == nodes[k] {
    }
    match hook(nodes[..n], nodes[n]) {
      case None =>
        from' := from;
        assert out + [] == out;
      case Some(d) =>
        FilledKeeps(text, enc, nodes[n], d);
        from' := from + [n];
        assert forall k | 0 <= k < n :: k in from' <==> k in from;
        assert n in from';
    }
  }

  lemma {:induction false} PublishedAnswers<C>(text: Str, enc: PositionEncoding, hook: Hook<C>, nodes: seq<FailedNode<C>>)
      returns (from: seq<nat>)
    requires Fits(text)
    ensures Answers(text, enc, hook, nodes, Published(text, enc, hook, [], nodes), from)
  {
    if nodes == [] {
      from := [];
    } else {
      hide Answers, Filled, Fits;
      var n := |nodes| - 1;
      from := PublishedAnswers(text, enc, hook, nodes[..n]);
      from := AnswersOneMore(text, enc, hook, nodes, Published(text, enc, hook, [], nodes[..n]), from);
      assert [] + nodes[..n] == nodes[..n];
    }
  }

  /** The hook's state and the collected diagnostics. */
  class Collector<C> {
    var calls: seq<FailedNode<C>>
    var out: seq<Diagnostic>

    constructor ()
      ensures calls == [] && out == []
    {
      calls, out := [], [];
    }
  }

  /** Going from `(calls, out)` to the collector's state, the hook was offered exactly `nodes`. */
  ghost predicate Collected<C>(
      text: Str, enc: PositionEncoding, hook: Hook<C>, calls: seq<FailedNode<C>>, out: seq<Diagnostic>, nodes: seq<FailedNode<C>>,
      calls': seq<FailedNode<C>>, out': seq<Diagnostic>)
  {
    calls' == calls + nodes && out' == out + Published(text, enc, hook, calls, nodes)
  }

  lemma CollectedAppend<C>(
      text: Str, enc: PositionEncoding, hook: Hook<C>, calls: seq<FailedNode<C>>, out: seq<Diagnostic>,
      nodes: seq<FailedNode<C>>, more: seq<FailedNode<C>>,
      calls1: seq<FailedNode<C>>, out1: seq<Diagnostic>, calls2: seq<FailedNode<C>>, out2: seq<Diagnostic>)
    requires Collected(text, enc, hook, calls, out, nodes, calls1, out1)
    requires Collected(text, enc, hook, calls1, out1, more, calls2, out2)
    ensures Collected(text, enc, hook, calls, out, nodes + more, calls2, out2)
  {
    PublishedAppend(text, enc, hook, calls, nodes, more);
  }

  lemma {:induction false} OfferedInRange<C>(a: Arena<C>, id: nat, underFailure: bool, cascades: bool)
    requires ChildrenPointBack(a) && id < |a|
    ensures InRange(a, Offered(a, id, underFailure, cascades))
    decreases |a| - id, 1, 0
  {
    ChildrenAreBelow(a, id);
    OfferedAllInRange(a, id, a[id].children, underFailure || (IsFailing(a[id]) && !cascades), cascades);
  }

  lemma {:induction false} OfferedAllInRange<C>(a: Arena<C>, lo: nat, ids: seq<nat>, underFailure: bool, cascades: bool)
    requires ChildrenPointBack(a) && lo < |a| && Below(a, lo, ids)
    ensures InRange(a, OfferedAll(a, lo, ids, underFailure, cascades))
    decreases |a| - lo, 0, |ids|
  {
    if ids != [] {
      OfferedAllInRange(a, lo, ids[..|ids| - 1], underFailure, cascades);
      OfferedInRange(a, ids[|ids| - 1], underFailure, cascades);
    }
  }

  /**
    * Builds the diagnostics of a document, walking its tree from the root: the hook is asked about the
    * offered nodes, in order, and every answer is kept.
    */
  method BuildDiagnostics<C(==, !new)>(doc: Document<C>, cascades: bool, hook: Hook<C>)
      returns (out: seq<Diagnostic>, ghost nodes: seq<FailedNode<C>>, ghost from: seq<nat>)
    requires doc.Valid()
    ensures var a, ids := doc.session.tree.nodes, Offered(doc.session.tree.nodes, 0, false, cascades);
            && InRange(a, ids) && |nodes| == |ids|
            && (forall k | 0 <= k < |ids| :: nodes[k] == FailedNode(ids[k], a[ids[k]].ctx, a[ids[k]].status, a[ids[k]].span))
            && out == Published(doc.text, doc.encoding, hook, [], nodes)
    ensures Answers(doc.text, doc.encoding, hook, nodes, out, from)
  {
    OfferedInRange(doc.session.tree.nodes, 0, false, cascades);
    var collector := new Collector<C>();
    Walk(doc, doc.session.tree.root, false, cascades, hook, collector);
    out := collector.out;
    nodes := NodesFor(doc.session.tree.nodes, Offered(doc.session.tree.nodes, 0, false, cascades));
    from := PublishedAnswers(doc.text, doc.encoding, hook, nodes);
  }

  /** Offers the failing nodes below `id`, itself included, to the hook. */
  method Walk<C(==, !new)>(
      doc: Document<C>, id: nat, underFailure: bool, cascades: bool, hook: Hook<C>, collector: Collector<C>)
    requires doc.Valid() && id < |doc.session.tree.nodes|
    modifies collector
    ensures InRange(doc.session.tree.nodes, Offered(doc.session.tree.nodes, id, underFailure, cascades))
    ensures Collected(doc.text, doc.encoding, hook, old(collector.calls), old(collector.out),
                      NodesFor(doc.session.tree.nodes, Offered(doc.session.tree.nodes, id, underFailure, cascades)),
                      collector.calls, collector.out)
    decreases |doc.session.tree.nodes| - id
  {
    ghost var a, calls, out := doc.session.tree.nodes, collector.calls, collector.out;
    OfferedInRange(a, id, underFailure, cascades);
    ChildrenAreBelow(a, id);
    var children := doc.session.tree.nodes[id].children;
    hide Consistent, ChildrenPointBack, CoversText, Fits, Collected, PositionOf, WalkedSoFar, OfferedAll, NodesFor, IndexOf;
    var failing := IsFailing(doc.session.tree.nodes[id]);
    var offer := failing && (!underFailure || cascades);
    var childUnderFailure := underFailure || (failing && !cascades);
    ghost var own: seq<nat> := if offer then [id] else [];
    if offer {
      Consult(doc, id, hook, collector);
    }
    WalkBegins(doc.text, doc.encoding, hook, a, id, own, childUnderFailure, cascades, calls, out, collector.calls, collector.out);
    assert children[..0] == [];
    for k := 0 to |children|
      invariant WalkedSoFar(doc.text, doc.encoding, hook, a, id, own, children[..k], childUnderFailure, cascades,
                            calls, out, collector.calls, collector.out)
    {
      ghost var calls1, out1 := collector.calls, collector.out;
      Walk(doc, children[k], childUnderFailure, cascades, hook, collector);
      WalkGoesOn(doc.text, doc.encoding, hook, a, id, own, children, k, childUnderFailure, cascades,
                 calls, out, calls1, out1, collector.calls, collector.out);
    }
    assert children[..|children|] == children;
    WalkEnds(doc.text, doc.encoding, hook, a, id, own, underFailure, cascades, calls, out, collector.calls, collector.out);
  }

  /** The walk below `lo` has offered `own` and everything below `ids`. */
  ghost predicate WalkedSoFar<C>(
      text: Str, enc: PositionEncoding, hook: Hook<C>, a: Arena<C>, lo: nat, own: seq<nat>, ids: seq<nat>, underFailure: bool, cascades: bool,
      calls: seq<FailedNode<C>>, out: seq<Diagnostic>, calls': seq<FailedNode<C>>, out': seq<Diagnostic>)
  {
    && OfferedWell(a, lo, own, ids, underFailure, cascades)
    && Collected(text, enc, hook, calls, out, NodesFor(a, own + OfferedAll(a, lo, ids, underFailure, cascades)), calls', out')
  }

  lemma WalkBegins<C>(
      text: Str, enc: PositionEncoding, hook: Hook<C>, a: Arena<C>, lo: nat, own: seq<nat>, underFailure: bool, cascades: bool,
      calls: seq<FailedNode<C>>, out: seq<Diagnostic>, calls': seq<FailedNode<C>>, out': seq<Diagnostic>)
    requires ChildrenPointBack(a) && lo < |a| && InRange(a, own)
    requires if own == [] then calls' == calls && out' == out
             else Collected(text, enc, hook, calls, out, NodesFor(a, own), calls', out')
    ensures WalkedSoFar(text, enc, hook, a, lo, own, [], underFailure, cascades, calls, out, calls', out')
  {
    assert own + OfferedAll(a, lo, [], underFailure, cascades) == own;
  }

  lemma WalkGoesOn<C>(
      text: Str, enc: PositionEncoding, hook: Hook<C>, a: Arena<C>, lo: nat, own: seq<nat>, ids: seq<nat>, k: nat, underFailure: bool, cascades: bool,
      calls: seq<FailedNode<C>>, out: seq<Diagnostic>, calls1: seq<FailedNode<C>>, out1: seq<Diagnostic>,
      calls2: seq<FailedNode<C>>, out2: seq<Diagnostic>)
    requires k < |ids| && Below(a, lo, ids)
    requires WalkedSoFar(text, enc, hook, a, lo, own, ids[..k], underFailure, cascades, calls, out, calls1, out1)
    requires ChildrenPointBack(a) && InRange(a, Offered(a, ids[k], underFailure, cascades))
    requires Collected(text, enc, hook, calls1, out1, NodesFor(a, Offered(a, ids[k], underFailure, cascades)), calls2, out2)
    ensures WalkedSoFar(text, enc, hook, a, lo, own, ids[..k + 1], underFailure, cascades, calls, out, calls2, out2)
  {
    hide Collected, ChildrenPointBack;
    OfferedNext(a, lo, own, ids, k, underFailure, cascades);
    CollectedAppend(text, enc, hook, calls, out,
                    NodesFor(a, own + OfferedAll(a, lo, ids[..k], underFailure, cascades)),
                    NodesFor(a, Offered(a, ids[k], underFailure, cascades)),
                    calls1, out1, calls2, out2);
  }

  lemma WalkEnds<C>(
      text: Str, enc: PositionEncoding, hook: Hook<C>, a: Arena<C>, id: nat, own: seq<nat>, underFailure: bool, cascades: bool,
      calls: seq<FailedNode<C>>, out: seq<Diagnostic>, calls': seq<FailedNode<C>>, out': seq<Diagnostic>)
    requires id < |a| && own == if IsFailing(a[id]) && (!underFailure || cascades) then [id] else []
    requires WalkedSoFar(text, enc, hook, a, id, own, a[id].children, underFailure || (IsFailing(a[id]) && !cascades), cascades,
                         calls, out, calls', out')
    ensures ChildrenPointBack(a) && InRange(a, Offered(a, id, underFailure, cascades))
    ensures Collected(text, enc, hook, calls, out, NodesFor(a, Offered(a, id, underFailure, cascades)), calls', out')
  {
    hide Collected, ChildrenPointBack, IsFailing;
  }

  /** Calls the hook on node `id` and keeps its diagnostic, with a range. */
  method Consult<C(==, !new)>(doc: Document<C>, id: nat, hook: Hook<C>, collector: Collector<C>)
    requires doc.Valid() && id < |doc.session.tree.nodes|
    modifies collector
    ensures InRange(doc.session.tree.nodes, [id])
    ensures Collected(doc.text, doc.encoding, hook, old(collector.calls), old(collector.out),
                      NodesFor(doc.session.tree.nodes, [id]), collector.calls, collector.out)
  {
    hide Consistent, CoversText, PositionOf;
    var node := NodeFor(doc.session.tree.nodes, id);
    var answer := hook(collector.calls, node);
    collector.calls := collector.calls + [node];
    if answer.Some? {
      var diagnostic := answer.value;
      if diagnostic.range == NO_RANGE {
        var range := doc.RangeOf(node.span);
        diagnostic := diagnostic.(range := range);
      }
      collector.out := collector.out + [diagnostic];
    }
    assert NodesFor(doc.session.tree.nodes, [id]) == [node];
    PublishedOne(doc.text, doc.encoding, hook, old(collector.calls), node);
  }

  lemma PublishedOne<C>(text: Str, enc: PositionEncoding, hook: Hook<C>, prior: seq<FailedNode<C>>, node: FailedNode<C>)
    ensures Published(text, enc, hook, prior, [node]) == AnswerTo(text, enc, hook, prior, node)
  {
    hide AnswerTo;
    assert [node][..0] == [] && prior + [] == prior;
  }

  ghost predicate OfferedWell<C>(a: Arena<C>, lo: nat, own: seq<nat>, ids: seq<nat>, underFailure: bool, cascades: bool) {
    && ChildrenPointBack(a) && lo < |a| && Below(a, lo, ids)
    && InRange(a, own + OfferedAll(a, lo, ids, underFailure, cascades))
  }

  lemma OfferedNext<C>(a: Arena<C>, lo: nat, own: seq<nat>, ids: seq<nat>, k: nat, underFailure: bool, cascades: bool)
    requires k < |ids| && Below(a, lo, ids) && OfferedWell(a, lo, own, ids[..k], underFailure, cascades)
    ensures OfferedWell(a, lo, own, ids[..k + 1], underFailure, cascades)
    ensures InRange(a, Offered(a, ids[k], underFailure, cascades))
    ensures NodesFor(a, own + OfferedAll(a, lo, ids[..k + 1], underFailure, cascades)) ==
            NodesFor(a, own + OfferedAll(a, lo, ids[..k], underFailure, cascades)) +
            NodesFor(a, Offered(a, ids[k], underFailure, cascades))
  {
    assert ids[..k + 1][..k] == ids[..k];
    OfferedAllInRange(a, lo, ids[..k + 1], underFailure, cascades);
    OfferedInRange(a, ids[k], underFailure, cascades);
    assert own + OfferedAll(a, lo, ids[..k + 1], underFailure, cascades) ==
           own + OfferedAll(a, lo, ids[..k], underFailure, cascades) + Offered(a, ids[k], underFailure, cascades);
  }
}
