/** The simple parser the engine speeds up: depth first, from nothing, with no arena and no reuse. */
module Reference {
  import opened Spans
  import opened Arenas
  import opened Invariants
  import opened Engines
  import opened Freshness
  import opened Runs
  import opened Batches
  import opened Soundness

  /** What a client sees of a node and everything below it. */
  datatype Tree<C> = Tree(span: Span, ctx: C, status: Status, depth: nat, attempts: nat, kids: seq<Tree<C>>)

  /** The live tree below node `i`. */
  ghost function Abstract<C>(a: Arena<C>, i: nat): Tree<C>
    requires ChildrenPointBack(a) && i < |a|
    decreases |a| - i
  {
    var n := a[i];
    Tree(n.span, n.ctx, n.status, n.depth, n.attempts,
         seq(|n.children|, k requires 0 <= k < |n.children| => assert n.children[k] in a[i].children; Abstract(a, n.children[k])))
  }

  /**
    * Offer the region to the passes from `round` on; the first that accepts it settles it, the
    * first that splits it leaves the pieces to the next round.  `home` is where it started.
    */
  ghost function Parse<C>(engine: Engine<C>, source: Text, home: nat, round: nat, span: Span, ctx: C): Tree<C>
    requires home <= round
    decreases engine.MaxRounds() - round
  {
    if round >= engine.MaxRounds() then
      Tree(span, ctx, if round == home then Unparsed else Failed, round, round - home, [])
    else
      match engine.VerdictAt(source, round, span, ctx)
      case Failing(_) => Parse(engine, source, home, round + 1, span, ctx)
      case Accepted => Tree(span, ctx, Done, round, round - home, [])
      case Split(kids) =>
        Tree(span, ctx, Expanded, round, round - home,
             seq(|kids|, k requires 0 <= k < |kids| => Parse(engine, source, round + 1, round + 1, kids[k].0, kids[k].1)))
  }

  /** Parsing a whole text from nothing. */
  ghost function Scratch<C>(engine: Engine<C>, source: Text, span: Span, ctx: C): Tree<C> {
    Parse(engine, source, 0, 0, span, ctx)
  }

  /** No pass below the cap has work left. */
  ghost predicate Quiet<C>(a: Arena<C>, cap: nat) {
    forall i | 0 <= i < |a| :: !Workable(a[i], cap)
  }

  /** Every child of an expanded node started in the round after its parent's. */
  ghost predicate Aligned<C>(a: Arena<C>) {
    forall p: nat, c: nat {:trigger c in a[p].children} ::
      p < |a| && c < |a| && a[p].status == Expanded && c in a[p].children ==> Home(a[c]) == a[p].depth + 1
  }

  lemma {:induction false} ParseSkipsFailures<C>(engine: Engine<C>, source: Text, home: nat, round: nat, until: nat, span: Span, ctx: C)
    requires home <= round <= until <= engine.MaxRounds()
    requires forall r: nat | round <= r < until :: engine.VerdictAt(source, r, span, ctx).Failing?
    ensures Parse(engine, source, home, round, span, ctx) == Parse(engine, source, home, until, span, ctx)
    decreases until - round
  {
    if round < until {
      assert engine.VerdictAt(source, round, span, ctx).Failing?;
      ParseSkipsFailures(engine, source, home, round + 1, until, span, ctx);
    }
  }

  /** A sound, quiet and aligned tree is, node for node, what parsing from nothing gives. */
  lemma {:induction false} QuietTreeIsParsed<C>(engine: Engine<C>, a: Arena<C>, rev: nat, source: Text, i: nat)
    requires Sound(engine, a, rev, source) && Quiet(a, engine.MaxRounds()) && Aligned(a)
    requires ChildrenPointBack(a) && i < |a| && a[i].alive && Home(a[i]) >= 0
    ensures Abstract(a, i) == Parse(engine, source, Home(a[i]), Home(a[i]), a[i].span, a[i].ctx)
    decreases |a| - i, 1
  {
    hide Sound, Quiet, ChildrenPointBack, Parse, Abstract, Aligned, InRange;
    NodeIsParsed(engine, a, rev, source, i);
    if a[i].status != Expanded {
      ChildlessIsALeaf(a, i);
    } else {
      forall k | 0 <= k < |a[i].children| ensures KidParsed(engine, a, source, i, k) {
        KidIsParsed(engine, a, rev, source, i, k);
      }
      ExpandedIsParsed(engine, a, source, i);
    }
  }

  /** The subtree of child `k` of an expanded node is what parsing its region in the next round gives. */
  ghost predicate KidParsed<C>(engine: Engine<C>, a: Arena<C>, source: Text, i: nat, k: nat)
    requires ChildrenPointBack(a) && i < |a|
  {
    && InRange(a, a[i].children) && k < |a[i].children|
    && Abstract(a, a[i].children[k]) ==
       Parse(engine, source, a[i].depth + 1, a[i].depth + 1, Keys(a, a[i].children)[k].0, Keys(a, a[i].children)[k].1)
  }

  lemma {:induction false} KidIsParsed<C>(engine: Engine<C>, a: Arena<C>, rev: nat, source: Text, i: nat, k: nat)
    requires Sound(engine, a, rev, source) && Quiet(a, engine.MaxRounds()) && Aligned(a)
    requires ChildrenPointBack(a) && i < |a| && a[i].status == Expanded && InRange(a, a[i].children)
    requires k < |a[i].children|
    ensures KidParsed(engine, a, source, i, k)
    decreases |a| - i, 0
  {
    hide Sound, Quiet, Parse, Abstract, Aligned;
    ChildOfExpanded(a, i, k);
    QuietTreeIsParsed(engine, a, rev, source, a[i].children[k]);
  }

  lemma ChildlessIsALeaf<C>(a: Arena<C>, i: nat)
    requires ChildrenPointBack(a) && i < |a| && a[i].children == []
    ensures Abstract(a, i) == Tree(a[i].span, a[i].ctx, a[i].status, a[i].depth, a[i].attempts, [])
  {
  }

  lemma ChildOfExpanded<C>(a: Arena<C>, i: nat, k: nat)
    requires ChildrenPointBack(a) && Aligned(a) && i < |a| && a[i].status == Expanded && k < |a[i].children|
    ensures var c := a[i].children[k]; i < c < |a| && a[c].alive && Home(a[c]) == a[i].depth + 1
  {
    assert a[i].children[k] in a[i].children;
  }

  lemma ExpandedIsParsed<C>(engine: Engine<C>, a: Arena<C>, source: Text, i: nat)
    requires ChildrenPointBack(a) && i < |a| && 0 <= Home(a[i]) && a[i].status == Expanded
    requires a[i].depth < engine.MaxRounds() && InRange(a, a[i].children)
    requires engine.VerdictAt(source, a[i].depth, a[i].span, a[i].ctx) == Split(Keys(a, a[i].children))
    requires forall k | 0 <= k < |a[i].children| :: KidParsed(engine, a, source, i, k)
    ensures Abstract(a, i) == Parse(engine, source, Home(a[i]), a[i].depth, a[i].span, a[i].ctx)
  {
    var t := Parse(engine, source, Home(a[i]), a[i].depth, a[i].span, a[i].ctx);
    forall k | 0 <= k < |a[i].children| ensures Abstract(a, i).kids[k] == t.kids[k] {
      assert KidParsed(engine, a, source, i, k);
    }
    assert Abstract(a, i).kids == t.kids;
  }

  /** A node that has reached the cap never had a chance to get children. */
  lemma ParentsAreBelowTheCap<C>(a: Arena<C>, cap: nat, i: nat)
    requires |a| > 0 && ChildrenPointBack(a) && Ordered(a) && Bounded(a, cap) && i < |a|
    ensures a[i].children != [] ==> a[i].depth < cap
  {
    if a[i].children != [] {
      assert a[i].children[0] in a[i].children;
    }
  }

  /** One level of it: the node's own fields, and that only expanded nodes have children. */
  lemma NodeIsParsed<C>(engine: Engine<C>, a: Arena<C>, rev: nat, source: Text, i: nat)
    requires Sound(engine, a, rev, source) && Quiet(a, engine.MaxRounds())
    requires i < |a| && a[i].alive
    ensures var n := a[i];
            && 0 <= Home(n) <= n.depth <= engine.MaxRounds()
            && Parse(engine, source, Home(n), Home(n), n.span, n.ctx) == Parse(engine, source, Home(n), n.depth, n.span, n.ctx)
            && (n.status != Expanded ==>
                  n.children == [] &&
                  Parse(engine, source, Home(n), n.depth, n.span, n.ctx) == Tree(n.span, n.ctx, n.status, n.depth, n.attempts, []))
            && (n.status == Expanded ==>
                  n.depth < engine.MaxRounds() && InRange(a, n.children) &&
                  engine.VerdictAt(source, n.depth, n.span, n.ctx) == Split(Keys(a, n.children)))
  {
    var n := a[i];
    assert !Workable(n, engine.MaxRounds());
    assert Explained(engine, source, n, Keys(a, n.children));
    ParseSkipsFailures(engine, source, Home(n), Home(n), n.depth, n.span, n.ctx);
    ParentsAreBelowTheCap(a, engine.MaxRounds(), i);
  }

  // ----- alignment is exactly what agreement with the simple parser needs -----

  ghost predicate TreeAligned<C>(t: Tree<C>) {
    t.status == Expanded ==>
      forall k | 0 <= k < |t.kids| :: t.kids[k].depth - t.kids[k].attempts == t.depth + 1 && TreeAligned(t.kids[k])
  }

  lemma {:induction false} ParseIsAligned<C>(engine: Engine<C>, source: Text, home: nat, round: nat, span: Span, ctx: C)
    requires home <= round
    ensures var t := Parse(engine, source, home, round, span, ctx); TreeAligned(t) && t.depth - t.attempts == home
    decreases engine.MaxRounds() - round
  {
    if round < engine.MaxRounds() {
      match engine.VerdictAt(source, round, span, ctx) {
        case Accepted =>
        case Failing(_) => ParseIsAligned(engine, source, home, round + 1, span, ctx);
        case Split(kids) =>
          forall k | 0 <= k < |kids|
            ensures var t := Parse(engine, source, round + 1, round + 1, kids[k].0, kids[k].1);
                    TreeAligned(t) && t.depth - t.attempts == round + 1
          {
            ParseIsAligned(engine, source, round + 1, round + 1, kids[k].0, kids[k].1);
          }
      }
    }
  }

  /** In a quiet tree only expanded nodes have children. */
  ghost predicate ParentsAreExpanded<C>(a: Arena<C>) {
    forall i | 0 <= i < |a| && a[i].children != [] :: a[i].status == Expanded
  }

  lemma QuietParentsAreExpanded<C>(engine: Engine<C>, a: Arena<C>, rev: nat, source: Text)
    requires Sound(engine, a, rev, source) && Quiet(a, engine.MaxRounds())
    ensures ParentsAreExpanded(a)
  {
    forall i | 0 <= i < |a| && a[i].children != [] ensures a[i].status == Expanded {
      assert a[i].alive && !Workable(a[i], engine.MaxRounds());
      ParentsAreBelowTheCap(a, engine.MaxRounds(), i);
    }
  }

  lemma {:induction false} AlignedBelow<C>(a: Arena<C>, i: nat)
    requires Shape(a) && ParentsAreExpanded(a) && i < |a| && a[i].alive
    requires TreeAligned(Abstract(a, 0))
    ensures TreeAligned(Abstract(a, i))
    decreases i
  {
    if i > 0 {
      assert Listed(a, i);
      var p := a[i].parent.value;
      AlignedBelow(a, p);
      var k :| 0 <= k < |a[p].children| && a[p].children[k] == i;
      assert Abstract(a, p).kids[k] == Abstract(a, i);
    }
  }

  lemma AlignedTreeIsAligned<C>(a: Arena<C>)
    requires Shape(a) && ParentsAreExpanded(a) && TreeAligned(Abstract(a, 0))
    ensures Aligned(a)
  {
    forall p: nat, c: nat | p < |a| && c < |a| && a[p].status == Expanded && c in a[p].children
      ensures Home(a[c]) == a[p].depth + 1
    {
      assert a[p].alive;
      AlignedBelow(a, p);
      var k :| 0 <= k < |a[p].children| && a[p].children[k] == c;
      assert Abstract(a, p).kids[k] == Abstract(a, c);
    }
  }

  /**
    * A quiet tree that one engine has kept sound agrees with parsing its text from nothing exactly
    * when every child of an expanded node started in the round after its parent's.
    */
  lemma AgreesWithScratchIffAligned<C>(engine: Engine<C>, a: Arena<C>, rev: nat, source: Text)
    requires Sound(engine, a, rev, source) && Quiet(a, engine.MaxRounds())
    ensures Abstract(a, 0) == Scratch(engine, source, a[0].span, a[0].ctx) <==> Aligned(a)
  {
    hide Quiet;
    QuietParentsAreExpanded(engine, a, rev, source);
    if Aligned(a) {
      assert Home(a[0]) == 0;
      QuietTreeIsParsed(engine, a, rev, source, 0);
    }
    if Abstract(a, 0) == Scratch(engine, source, a[0].span, a[0].ctx) {
      ParseIsAligned(engine, source, 0, 0, a[0].span, a[0].ctx);
      AlignedTreeIsAligned(a);
    }
  }

  /** A levelled schedule always starts children in the round after their parent's. */
  lemma LevelledIsAligned<C(!new)>(engine: Engine<C>, a: Arena<C>, rev: nat, source: Text, level: C -> nat)
    requires Levelled(engine, level) && Sound(engine, a, rev, source) && AtLevel(a, level)
    ensures Aligned(a)
  {
    forall p: nat, c: nat | p < |a| && c < |a| && a[p].status == Expanded && c in a[p].children
      ensures Home(a[c]) == a[p].depth + 1
    {
      var n := a[p];
      assert n.alive && a[c].alive;
      assert Explained(engine, source, n, Keys(a, n.children));
      var v := engine.VerdictAt(source, n.depth, n.span, n.ctx);
      var k :| 0 <= k < |n.children| && n.children[k] == c;
      assert v.kids[k] == Key(a[c]);
    }
  }

  // ----- a tree that has never been edited -----

  /** No unparsed node still carries old children. */
  ghost predicate NoLeftovers<C>(a: Arena<C>) {
    forall i | 0 <= i < |a| && a[i].alive && a[i].status == Unparsed :: a[i].children == []
  }

  lemma MergedHasNoLeftovers<C>(a: Arena<C>, b: Arena<C>, id: nat, v: Verdict<C>)
    requires Merged(a, b, id, v) && NoLeftovers(a)
    ensures NoLeftovers(b)
  {
    forall i | 0 <= i < |b| && b[i].alive && b[i].status == Unparsed ensures b[i].children == [] {
      assert i < |a| && i != id ==> b[i] == a[i];
    }
  }

  /** A merge is aligned when every old child it keeps started in the round it gives out. */
  lemma MergedIsAligned<C>(a: Arena<C>, b: Arena<C>, id: nat, v: Verdict<C>)
    requires Merged(a, b, id, v) && Aligned(a)
    requires v.Split? ==> GivesTheKids(a, b, id, v.kids)
    requires forall c | c in b[id].children && c in a[id].children && c < |a| :: Home(a[c]) == a[id].depth + 1
    ensures Aligned(b)
  {
    forall p: nat, c: nat | p < |b| && c < |b| && b[p].status == Expanded && c in b[p].children
      ensures Home(b[c]) == b[p].depth + 1
    {
      MergedChild(a, b, id, v, p, c);
      if p == id {
        var k :| 0 <= k < |b[id].children| && b[id].children[k] == c;
      } else {
        assert c in a[p].children;
        assert Home(b[c]) == Home(a[c]);
      }
    }
  }

  /** Without old children to reuse, a merge gives only children of the next round. */
  lemma MergeKeepsAligned<C>(engine: Engine<C>, source: Text, a: Arena<C>, id: nat)
    requires Shape(a) && Labelled(a) && id < |a| && a[id].Ready() && NoLeftovers(a) && Aligned(a)
    ensures NoLeftovers(MergeNext(engine, source, a, id)) && Aligned(MergeNext(engine, source, a, id))
  {
    var v := NextVerdict(engine, source, a[id]);
    MergeEffect(a, id, v);
    if v.Split? {
      MergeGivesTheKids(a, id, v);
    }
    assert a[id].children == [];
    hide Merge, Merged, Shape, Labelled, Aligned, NoLeftovers, GivesTheKids;
    MergedHasNoLeftovers(a, MergeNext(engine, source, a, id), id, v);
    MergedIsAligned(a, MergeNext(engine, source, a, id), id, v);
  }

  lemma {:induction false} ReplayKeepsAligned<C>(engine: Engine<C>, source: Text, a: Arena<C>, rev: nat, log: seq<nat>)
    requires Consistent(a, rev) && Legit(engine, source, a, log) && NoLeftovers(a) && Aligned(a)
    ensures NoLeftovers(Replay(engine, source, a, log)) && Aligned(Replay(engine, source, a, log))
  {
    hide NoLeftovers, Aligned;
    if log != [] {
      var n := |log| - 1;
      ReplayKeepsAligned(engine, source, a, rev, log[..n]);
      ReplayKeepsConsistent(engine, source, a, rev, log[..n]);
      MergeKeepsAligned(engine, source, Replay(engine, source, a, log[..n]), log[n]);
    }
  }
}
