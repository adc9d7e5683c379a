/** Settled nodes never go stale: what a node says is what the passes say about its current text. */
module Freshness {
  import opened Spans
  import opened Arenas
  import opened Invariants
  import opened Edits
  import opened Engines

  /**
    * The passes from the node's home round up to its current round all failed on its current
    * text, a rejected child counting as failure, and a settled node reports what the pass of its
    * current round produces: acceptance, or exactly the listed children.
    */
  ghost predicate Explained<C>(engine: Engine<C>, source: Text, n: Node<C>, kids: seq<Kid<C>>) {
    && (forall r: nat {:trigger engine.VerdictAt(source, r, n.span, n.ctx)} ::
          Home(n) <= r < n.depth ==> engine.VerdictAt(source, r, n.span, n.ctx).Failing?)
    && (n.status == Done ==> engine.VerdictAt(source, n.depth, n.span, n.ctx).Accepted?)
    && (n.status == Expanded ==> engine.VerdictAt(source, n.depth, n.span, n.ctx) == Split(kids))
  }

  ghost predicate NoneStale<C>(engine: Engine<C>, source: Text, a: Arena<C>) {
    forall i | 0 <= i < |a| && a[i].alive ::
      InRange(a, a[i].children) && Explained(engine, source, a[i], Keys(a, a[i].children))
  }

  /** The verdict of the round a node waits for. */
  function NextVerdict<C>(engine: Engine<C>, source: Text, n: Node<C>): Verdict<C> {
    engine.VerdictAt(source, n.depth, n.span, n.ctx)
  }

  lemma KeysFrame<C>(a: Arena<C>, b: Arena<C>, ids: seq<nat>)
    requires InRange(a, ids) && InRange(b, ids)
    requires forall k | 0 <= k < |ids| :: Key(a[ids[k]]) == Key(b[ids[k]])
    ensures Keys(a, ids) == Keys(b, ids)
  {
  }

  /** Merging the verdict of the current round leaves no node stale. */
  lemma MergeKeepsFresh<C>(engine: Engine<C>, source: Text, a: Arena<C>, id: nat)
    requires Shape(a) && id < |a| && a[id].Ready() && NoneStale(engine, source, a)
    ensures InRange(a, a[id].children)
    ensures NoneStale(engine, source, Merge(a, id, NextVerdict(engine, source, a[id])))
  {
    var v := NextVerdict(engine, source, a[id]);
    MergeEffect(a, id, v);
    if v.Split? {
      MergeGivesTheKids(a, id, v);
    }
    MergedStaysFresh(engine, source, a, Merge(a, id, v), id);
  }

  /** A round without a pass fails its jobs: each is tried again one round later. */
  lemma RoundWithoutPassFails<C>(engine: Engine<C>, source: Text, a: Arena<C>, id: nat)
    requires Shape(a) && id < |a| && a[id].Ready() && |engine.passes| <= a[id].depth
    ensures InRange(a, a[id].children)
    ensures Merge(a, id, NextVerdict(engine, source, a[id]))[id] ==
            a[id].(status := Failed, children := [], depth := a[id].depth + 1, attempts := a[id].attempts + 1)
  {
    MergeEffect(a, id, NextVerdict(engine, source, a[id]));
  }

  lemma MergedStaysFresh<C>(engine: Engine<C>, source: Text, a: Arena<C>, b: Arena<C>, id: nat)
    requires id < |a| && a[id].Ready() && NoneStale(engine, source, a)
    requires Merged(a, b, id, NextVerdict(engine, source, a[id]))
    requires var v := NextVerdict(engine, source, a[id]);
             v.Split? ==> InRange(b, b[id].children) && Keys(b, b[id].children) == v.kids
    ensures NoneStale(engine, source, b)
  {
    forall i | 0 <= i < |b| && b[i].alive
      ensures InRange(b, b[i].children) && Explained(engine, source, b[i], Keys(b, b[i].children))
    {
      ChildrenInRange(b, i);
      if i < |a| && i != id {
        assert b[i] == a[i];
        forall k | 0 <= k < |a[i].children| ensures Key(a[a[i].children[k]]) == Key(b[a[i].children[k]]) {
        }
        KeysFrame(a, b, a[i].children);
      }
    }
  }

  /** Every live span ends inside the text. */
  ghost predicate InText<C>(a: Arena<C>, source: Text)
    requires |a| > 0
  {
    a[0].span.end <= |source|
  }

  lemma EditKeepsInText<C>(a: Arena<C>, e: Edit, source: Text, source': Text, rev: nat, rev': nat)
    requires Consistent(a, rev) && InText(a, source) && Splices(e, source, source')
    ensures Restartable(a) && InText(EditAll(a, e, rev'), source')
  {
    ConsistentIsRestartable(a, rev);
    UntouchedTextIsKept(e, source, source', a[0].span, rev');
  }

  /** With slice-local passes an edit leaves no node stale: it resets whatever it might have changed. */
  lemma EditKeepsFresh<C(!new)>(engine: Engine<C>, a: Arena<C>, e: Edit, source: Text, source': Text, rev: nat, rev': nat)
    requires AllLocal(engine) && Consistent(a, rev) && InText(a, source) && NoneStale(engine, source, a)
    requires Splices(e, source, source')
    ensures Restartable(a)
    ensures NoneStale(engine, source', EditAll(a, e, rev'))
  {
    ConsistentIsRestartable(a, rev);
    var b := EditAll(a, e, rev');
    forall i | 0 <= i < |b| && b[i].alive
      ensures InRange(b, b[i].children) && Explained(engine, source', b[i], Keys(b, b[i].children))
    {
      assert InRange(a, a[i].children);
      if !e.Touches(a[i].span) {
        UntouchedStaysExplained(engine, a, e, source, source', rev, rev', i);
      }
    }
  }

  /** A child that sits alike in an untouched, moved parent is the moved child. */
  lemma MovedKid<C>(e: Edit, parent: Span, kid: Kid<C>, kid': Kid<C>, rev': nat)
    requires parent.Contains(kid.0) && kid.0.rev == parent.rev && !e.Touches(parent)
    requires KidShifted(kid, parent, kid', MapSpan(parent, e, rev'))
    ensures kid' == (MapSpan(kid.0, e, rev'), kid.1)
    ensures !e.Touches(kid.0)
  {
    UntouchedMovesRigidly(e, parent, kid.0, rev');
  }

  lemma UntouchedStaysExplained<C(!new)>(engine: Engine<C>, a: Arena<C>, e: Edit, source: Text, source': Text, rev: nat, rev': nat, i: nat)
    requires AllLocal(engine) && Consistent(a, rev) && InText(a, source)
    requires Splices(e, source, source') && Restartable(a)
    requires i < |a| && a[i].alive && !e.Touches(a[i].span) && InRange(a, a[i].children)
    requires Explained(engine, source, a[i], Keys(a, a[i].children))
    ensures var b := EditAll(a, e, rev'); Explained(engine, source', b[i], Keys(b, b[i].children))
  {
    var b := EditAll(a, e, rev');
    SpansFollowTheRoot(a, rev, i);
    var kids, kids' := Keys(a, a[i].children), Keys(b, b[i].children);
    forall k | 0 <= k < |kids|
      ensures a[i].span.Contains(kids[k].0) && kids[k].0.rev == rev
      ensures kids'[k].1 == kids[k].1
      ensures !e.Touches(kids[k].0) ==> kids'[k] == (MapSpan(kids[k].0, e, rev'), kids[k].1)
    {
      var c := a[i].children[k];
      assert c in a[i].children;
      assert kids[k] == Key(a[c]) && kids'[k] == Key(b[c]) && b[c] == EditNode(a[c], e, rev');
    }
    MovedStaysExplained(engine, source, source', a[i], kids, kids', e, rev');
  }

  lemma MovedStaysExplained<C(!new)>(engine: Engine<C>, source: Text, source': Text, n: Node<C>, kids: seq<Kid<C>>, kids': seq<Kid<C>>, e: Edit, rev': nat)
    requires AllLocal(engine) && n.span.end <= |source| && Splices(e, source, source') && !e.Touches(n.span)
    requires Explained(engine, source, n, kids) && |kids'| == |kids|
    requires forall k | 0 <= k < |kids| ::
               n.span.Contains(kids[k].0) && kids[k].0.rev == n.span.rev &&
               (!e.Touches(kids[k].0) ==> kids'[k] == (MapSpan(kids[k].0, e, rev'), kids[k].1))
    ensures Explained(engine, source', n.(span := MapSpan(n.span, e, rev')), kids')
  {
    var m := n.(span := MapSpan(n.span, e, rev'));
    UntouchedTextIsKept(e, source, source', n.span, rev');
    forall r: nat | Home(m) <= r < m.depth ensures engine.VerdictAt(source', r, m.span, m.ctx).Failing? {
      LocalVerdict(engine, r, source, n.span, source', m.span, n.ctx);
      assert engine.VerdictAt(source, r, n.span, n.ctx).Failing?;
    }
    LocalVerdict(engine, n.depth, source, n.span, source', m.span, n.ctx);
    if n.status == Expanded {
      var v' := engine.VerdictAt(source', n.depth, m.span, m.ctx);
      forall k | 0 <= k < |kids| ensures v'.kids[k] == kids'[k] {
        assert KidShifted(kids[k], n.span, v'.kids[k], m.span);
        MovedKid(e, n.span, kids[k], v'.kids[k], rev');
      }
      assert v'.kids == kids';
    }
  }
}
