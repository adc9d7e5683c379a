/** What an edit does to an arena: every live span moves, every touched node starts over. */
module Edits {
  import opened Spans
  import opened Arenas
  import opened Invariants

  /** The failure history of a live node never exceeds its round, so restarting cannot underflow. */
  ghost predicate Restartable<C>(a: Arena<C>) {
    forall i | 0 <= i < |a| && a[i].alive :: a[i].attempts <= a[i].depth
  }

  function EditNode<C>(n: Node<C>, e: Edit, rev: nat): Node<C>
    requires n.alive ==> n.attempts <= n.depth
  {
    if !n.alive then n
    else
      var moved := n.(span := MapSpan(n.span, e, rev));
      if e.Touches(n.span) then moved.(status := Unparsed, depth := n.depth - n.attempts, attempts := 0)
      else moved
  }

  ghost function EditAll<C>(a: Arena<C>, e: Edit, rev: nat): (b: Arena<C>)
    requires Restartable(a)
    ensures |b| == |a|
    ensures forall i | 0 <= i < |a| :: b[i] == EditNode(a[i], e, rev)
  {
    seq(|a|, i requires 0 <= i < |a| && Restartable(a) => EditNode(a[i], e, rev))
  }

  lemma ConsistentIsRestartable<C>(a: Arena<C>, rev: nat)
    requires Consistent(a, rev)
    ensures Restartable(a)
  {
    forall i | 0 <= i < |a| && a[i].alive ensures a[i].attempts <= a[i].depth {
      assert Home(a[i]) >= 0;
    }
  }

  /** The shape reads nothing but links and liveness. */
  ghost predicate SameLinks<C>(a: Arena<C>, b: Arena<C>) {
    && |a| == |b|
    && forall i | 0 <= i < |a| ::
         b[i].alive == a[i].alive && b[i].parent == a[i].parent && b[i].children == a[i].children
  }

  lemma SoundListsFrame<C>(a: Arena<C>, b: Arena<C>)
    requires ListsAreSound(a) && SameLinks(a, b)
    ensures ListsAreSound(b)
  {
    forall i: nat, c: nat | i < |b| && c in b[i].children
      ensures i < c < |b| && b[c].alive && b[c].parent == Some(i)
    {
      assert c in a[i].children;
    }
  }

  lemma ShapeFrame<C>(a: Arena<C>, b: Arena<C>)
    requires Shape(a) && SameLinks(a, b)
    ensures Shape(b)
  {
    SoundListsFrame(a, b);
    forall c: nat | 0 < c < |b| && b[c].alive ensures Listed(b, c) {
      assert Listed(a, c);
    }
  }

  lemma EditKeepsLinks<C>(a: Arena<C>, e: Edit, rev: nat, rev': nat)
    requires Consistent(a, rev) && Restartable(a)
    ensures Nested(EditAll(a, e, rev'), rev') && Ordered(EditAll(a, e, rev'))
  {
    var b := EditAll(a, e, rev');
    forall p: nat, c: nat | p < |b| && c < |b| && c in b[p].children
      ensures b[p].span.Contains(b[c].span)
      ensures Home(b[c]) > b[p].depth
    {
      assert c in a[p].children;
      NestingIsKept(e, a[p].span, a[c].span, rev');
    }
  }

  lemma EditKeepsLabelled<C>(a: Arena<C>, e: Edit, rev': nat)
    requires Labelled(a) && Restartable(a)
    ensures Labelled(EditAll(a, e, rev'))
  {
  }

  /** An edit keeps the whole invariant. */
  lemma EditKeepsConsistent<C>(a: Arena<C>, e: Edit, rev: nat, rev': nat)
    requires Consistent(a, rev)
    ensures Restartable(a)
    ensures Consistent(EditAll(a, e, rev'), rev')
  {
    ConsistentIsRestartable(a, rev);
    var b := EditAll(a, e, rev');
    assert SameLinks(a, b);
    ShapeFrame(a, b);
    EditKeepsLinks(a, e, rev, rev');
    EditKeepsLabelled(a, e, rev');
  }

  /** Every span of a consistent arena lies in the text when the root's does. */
  lemma {:induction false} SpansFollowTheRoot<C>(a: Arena<C>, rev: nat, i: nat)
    requires Consistent(a, rev) && i < |a| && a[i].alive
    ensures a[0].span.Contains(a[i].span)
    decreases i
  {
    if i > 0 {
      assert Listed(a, i);
      SpansFollowTheRoot(a, rev, a[i].parent.value);
    }
  }

  /** A node the edit does not touch keeps its whole live subtree: status, rounds, children and lengths. */
  lemma {:induction false} UntouchedSubtreeIsKept<C>(a: Arena<C>, e: Edit, rev: nat, rev': nat, i: nat, j: nat)
    requires Consistent(a, rev) && i < |a| && a[i].alive && !e.Touches(a[i].span)
    requires j < |a| && a[j].alive && Under(a, i, j)
    ensures Restartable(a)
    ensures !e.Touches(a[j].span)
    ensures a[i].span.Contains(a[j].span)
    ensures var b := EditAll(a, e, rev');
            && b[j] == a[j].(span := b[j].span)
            && b[j].span.Len() == a[j].span.Len()
            && b[j].span.start - b[i].span.start == a[j].span.start - a[i].span.start
    decreases j
  {
    ConsistentIsRestartable(a, rev);
    if j != i {
      assert Listed(a, j);
      var p := a[j].parent.value;
      UntouchedSubtreeIsKept(a, e, rev, rev', i, p);
      NestingIsKept(e, a[p].span, a[j].span, rev');
    }
    UntouchedMovesRigidly(e, a[i].span, a[j].span, rev');
  }

  /** `trail` is what `edits`, each bumping the revision, make of its first arena; none touches node `i`. */
  ghost predicate LeavesAlone<C>(trail: seq<Arena<C>>, edits: seq<Edit>, rev: nat, i: nat) {
    && |trail| == |edits| + 1
    && forall k | 0 <= k < |edits| ::
         Restartable(trail[k]) && trail[k + 1] == EditAll(trail[k], edits[k], rev + k + 1) &&
         i < |trail[k]| && !edits[k].Touches(trail[k][i].span)
  }

  /** Through any sequence of edits that leaves a node alone, its whole subtree is kept but for its place. */
  lemma {:induction false} SubtreeLeftAloneIsKept<C>(
      trail: seq<Arena<C>>, edits: seq<Edit>, rev: nat, i: nat, j: nat, k: nat)
    requires LeavesAlone(trail, edits, rev, i) && k < |trail| && Consistent(trail[0], rev)
    requires i < |trail[0]| && trail[0][i].alive && j < |trail[0]| && trail[0][j].alive && Under(trail[0], i, j)
    ensures Consistent(trail[k], rev + k)
    ensures SameSubtreeNode(trail[0], trail[k], i, j)
    decreases k
  {
    hide Consistent, Restartable;
    if k > 0 {
      SubtreeLeftAloneIsKept(trail, edits, rev, i, j, k - 1);
      var a := trail[k - 1];
      assert trail[k] == EditAll(a, edits[k - 1], rev + k);
      EditKeepsConsistent(a, edits[k - 1], rev + k - 1, rev + k);
      UntouchedSubtreeIsKept(a, edits[k - 1], rev + k - 1, rev + k, i, j);
      UnderFrame(a, trail[k], i, j);
    }
  }

  /** Node `j` below `i` is the same in both arenas, at the same distance from `i`. */
  ghost predicate SameSubtreeNode<C>(a: Arena<C>, b: Arena<C>, i: nat, j: nat) {
    && i < |a| && j < |a| && |b| == |a|
    && a[i].alive && a[j].alive && b[i].alive && Under(a, i, j) && Under(b, i, j)
    && b[j] == a[j].(span := b[j].span)
    && b[j].span.Len() == a[j].span.Len()
    && b[j].span.start - b[i].span.start == a[j].span.start - a[i].span.start
  }

  /** Touched nodes restart at their home round; no node ever changes its home. */
  lemma EditKeepsHomes<C>(a: Arena<C>, e: Edit, rev: nat, rev': nat, j: nat)
    requires Consistent(a, rev) && j < |a|
    ensures Restartable(a)
    ensures var b := EditAll(a, e, rev');
            && Home(b[j]) == Home(a[j]) && b[j].parent == a[j].parent && b[j].children == a[j].children
            && (a[j].alive && e.Touches(a[j].span) ==>
                  b[j].status == Unparsed && b[j].attempts == 0 && b[j].depth == Home(a[j]))
            && (a[j].alive ==> b[j].alive && b[j].ctx == a[j].ctx && b[j].span == MapSpan(a[j].span, e, rev'))
            && (a[j].alive && !e.Touches(a[j].span) ==>
                  b[j].status == a[j].status && b[j].depth == a[j].depth && b[j].attempts == a[j].attempts)
            && (!a[j].alive ==> b[j] == a[j])
  {
    ConsistentIsRestartable(a, rev);
  }
}
