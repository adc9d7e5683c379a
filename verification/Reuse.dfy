/** Re-expansion keeps as much of the old tree as the produced children allow, and no more. */
module Reuse {
  import opened Spans
  import opened Arenas
  import opened Invariants
  import opened Edits
  import opened Reference

  /**
    * Merging a split: the children are the produced ones in order; as many old children survive as
    * the multiset intersection of old and produced `(span, ctx)` pairs has; a surviving old child
    * and everything below it is kept field by field; the subtrees of the other old children die;
    * and nothing else in the arena changes.
    */
  lemma ReexpansionReusesMaximally<C>(a: Arena<C>, id: nat, kids: seq<Kid<C>>)
    requires Shape(a) && id < |a| && a[id].alive
    ensures InRange(a, a[id].children)
    ensures var olds, b := a[id].children, Merge(a, id, Split(kids)); var orphans := Match(a, olds, kids).orphans;
            && |a| <= |b| && InRange(b, b[id].children) && Keys(b, b[id].children) == kids
            && (forall c | c in olds :: c in b[id].children <==> c !in orphans)
            && |olds| - |orphans| == |multiset(Keys(a, olds)) * multiset(kids)|
            && (forall j | 0 <= j < |a| && j != id :: b[j] == if UnderAny(a, orphans, j) then a[j].(alive := false, children := []) else a[j])
  {
    ChildrenInRange(a, id);
    MergeGivesTheKids(a, id, Split(kids));
    MatchIsMaximal(a, a[id].children, kids);
    MergeIsOperable(a, id, Split(kids));
    MergeEffect(a, id, Split(kids));
    hide Match, Place, UnderAny, Shape;
  }

  /** The subtree of a surviving old child is untouched. */
  lemma ReusedSubtreeIsKept<C>(a: Arena<C>, id: nat, kids: seq<Kid<C>>, c: nat, j: nat)
    requires Shape(a) && id < |a| && a[id].alive && InRange(a, a[id].children)
    requires c in a[id].children && c !in Match(a, a[id].children, kids).orphans
    requires j < |a| && Under(a, c, j)
    ensures Merge(a, id, Split(kids))[j] == a[j]
  {
    ReexpansionReusesMaximally(a, id, kids);
    MatchClaims(a, a[id].children, kids);
    var orphans := Match(a, a[id].children, kids).orphans;
    UnderIsUpward(a, c, j);
    forall o | o in orphans ensures !Under(a, o, j) {
      assert o in a[id].children;
      SiblingsAreApart(a, id, c, o, j);
    }
  }

  // ----- where agreement with the simple parser is lost -----

  /** An edit alone never starts a child in the wrong round: it restarts nodes at home or leaves them be. */
  lemma EditKeepsAligned<C>(a: Arena<C>, e: Edit, rev: nat, rev': nat)
    requires Consistent(a, rev) && Aligned(a)
    ensures Restartable(a)
    ensures Aligned(EditAll(a, e, rev'))
  {
    ConsistentIsRestartable(a, rev);
    var b := EditAll(a, e, rev');
    forall p: nat, c: nat | p < |b| && c < |b| && b[p].status == Expanded && c in b[p].children
      ensures Home(b[c]) == b[p].depth + 1
    {
      assert c in a[p].children;
    }
  }

  /** What a re-expansion can tell in advance: every old child it keeps started in the round it is about to give out. */
  ghost predicate KeptHomesFit<C>(a: Arena<C>, id: nat, kids: seq<Kid<C>>)
    requires id < |a| && InRange(a, a[id].children)
  {
    var orphans := Match(a, a[id].children, kids).orphans;
    forall k | 0 <= k < |a[id].children| && a[id].children[k] !in orphans :: Home(a[a[id].children[k]]) == a[id].depth + 1
  }

  /**
    * Reuse is the one step that can lose the agreement with parsing from nothing: a merge keeps the
    * rounds aligned exactly unless it keeps a child that some other round of the node had created.
    */
  lemma MergeIsAlignedIffHomesFit<C>(a: Arena<C>, id: nat, v: Verdict<C>)
    requires Shape(a) && id < |a| && a[id].Ready() && Aligned(a)
    ensures InRange(a, a[id].children)
    ensures Aligned(Merge(a, id, v)) <==> (v.Split? ==> KeptHomesFit(a, id, v.kids))
  {
    MergeEffect(a, id, v);
    if v.Split? {
      MergeGivesTheKids(a, id, v);
      if Aligned(Merge(a, id, v)) {
        AlignedMeansHomesFit(a, id, v.kids);
      }
    }
    if v.Split? ==> KeptHomesFit(a, id, v.kids) {
      HomesFitMeansAligned(a, id, v);
    }
  }

  lemma HomesFitMeansAligned<C>(a: Arena<C>, id: nat, v: Verdict<C>)
    requires Shape(a) && id < |a| && a[id].alive && Aligned(a) && InRange(a, a[id].children)
    requires v.Split? ==> KeptHomesFit(a, id, v.kids)
    ensures Aligned(Merge(a, id, v))
  {
    MergeEffect(a, id, v);
    if v.Split? {
      MergeGivesTheKids(a, id, v);
    }
    var b := Merge(a, id, v);
    hide Merge, Match, Shape, UnderAny, Aligned, Merged, GivesTheKids;
    forall c | c in b[id].children && c in a[id].children && c < |a| ensures Home(a[c]) == a[id].depth + 1 {
      assert v.Split? by {
        ChildlessUnlessSplit(a, b, id, v);
      }
      KeptIsClaimed(a, id, v.kids, c);
      var k :| 0 <= k < |a[id].children| && a[id].children[k] == c;
    }
    MergedIsAligned(a, b, id, v);
  }

  lemma ChildlessUnlessSplit<C>(a: Arena<C>, b: Arena<C>, id: nat, v: Verdict<C>)
    requires Merged(a, b, id, v)
    ensures v.Split? || b[id].children == []
  {
  }

  lemma AlignedMeansHomesFit<C>(a: Arena<C>, id: nat, kids: seq<Kid<C>>)
    requires Shape(a) && id < |a| && a[id].alive && InRange(a, a[id].children)
    requires Aligned(Merge(a, id, Split(kids)))
    ensures KeptHomesFit(a, id, kids)
  {
    MergeEffect(a, id, Split(kids));
    MergeGivesTheKids(a, id, Split(kids));
    var b := Merge(a, id, Split(kids));
    forall k | 0 <= k < |a[id].children| && a[id].children[k] !in Match(a, a[id].children, kids).orphans
      ensures Home(a[a[id].children[k]]) == a[id].depth + 1
    {
      var c := a[id].children[k];
      KeptIsClaimed(a, id, kids, c);
      hide Merge, Match, Shape, UnderAny;
      assert c in a[id].children && c in b[id].children;
      KeptChild(a, b, id, kids, c);
    }
  }

  lemma KeptIsClaimed<C>(a: Arena<C>, id: nat, kids: seq<Kid<C>>, c: nat)
    requires Shape(a) && id < |a| && a[id].alive && c in a[id].children
    ensures InRange(a, a[id].children)
    ensures c in Merge(a, id, Split(kids))[id].children <==> c !in Match(a, a[id].children, kids).orphans
  {
    ReexpansionReusesMaximally(a, id, kids);
  }

  /** A child of the re-expanded node is a kept old child, as it was, or starts in the next round. */
  lemma KeptChild<C>(a: Arena<C>, b: Arena<C>, id: nat, kids: seq<Kid<C>>, c: nat)
    requires id < |a| <= |b| && GivesTheKids(a, b, id, kids) && c in b[id].children
    ensures c < |b|
    ensures if c < |a| then c in a[id].children && b[c] == a[c] else Home(b[c]) == a[id].depth + 1
  {
    var k :| 0 <= k < |b[id].children| && b[id].children[k] == c;
    assert Keys(b, b[id].children)[k] == kids[k];
  }
}
