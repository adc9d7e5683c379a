/** How detaching subtrees one after the other adds up to one removal. */
module Detaching {
  import opened Spans
  import opened Arenas
  import opened Invariants
  import opened Edits

  /**
    * Below `t` the arena still has its shape; elsewhere subtrees may already have been detached.
    */
  ghost predicate Intact<C>(a: Arena<C>, t: nat) {
    && t < |a| && Rooted(a) && DeadListNothing(a)
    && (forall i: nat, c: nat {:trigger c in a[i].children} ::
          i < |a| && Under(a, t, i) && c in a[i].children ==> i < c < |a| && a[c].alive && a[c].parent == Some(i))
    && (forall i: nat {:trigger a[i].children} :: i < |a| && Under(a, t, i) ==> Distinct(a[i].children))
    && (forall j: nat {:trigger Listed(a, j)} :: j < |a| && Under(a, t, j) && j != t && a[j].alive ==> Listed(a, j))
  }

  lemma ShapeIsIntact<C>(a: Arena<C>, t: nat)
    requires Shape(a) && t < |a|
    ensures Intact(a, t)
  {
    forall j: nat | j < |a| && Under(a, t, j) && j != t && a[j].alive ensures Listed(a, j) {
      UnderIsUpward(a, t, j);
    }
  }

  /** `b` is `a` after detaching `tops`, children of `id`; node `id` itself may have been rewritten. */
  ghost predicate PrunedSoFar<C>(a: Arena<C>, b: Arena<C>, id: nat, tops: seq<nat>) {
    && |b| == |a| && id < |a|
    && b[id].children == [] && b[id].parent == a[id].parent && (id == 0 ==> b[id].alive)
    && forall j | 0 <= j < |a| && j != id :: b[j] == if UnderAny(a, tops, j) then Killed(a[j]) else a[j]
  }

  lemma PrunedKeepsParents<C>(a: Arena<C>, b: Arena<C>, id: nat, tops: seq<nat>)
    requires PrunedSoFar(a, b, id, tops)
    ensures forall k | 0 <= k < |a| :: a[k].parent == b[k].parent
  {
  }

  /** A subtree no earlier detachment has reached is as it was. */
  lemma NotYetReached<C>(a: Arena<C>, b: Arena<C>, id: nat, ids: seq<nat>, k: nat, j: nat)
    requires Intact(a, id) && (forall m | 0 <= m < |ids| :: ids[m] in a[id].children) && Distinct(ids)
    requires k < |ids| && PrunedSoFar(a, b, id, ids[..k])
    requires j < |a| && Under(a, ids[k], j)
    ensures j != id && b[j] == a[j]
  {
    assert ids[k] in a[id].children;
    UnderIsUpward(a, ids[k], j);
    forall o | o in ids[..k] ensures !Under(a, o, j) {
      var m :| 0 <= m < k && ids[m] == o;
      assert ids[m] in a[id].children;
      SiblingsAreApart(a, id, o, ids[k], j);
    }
  }

  lemma ReadyToDetach<C>(a: Arena<C>, b: Arena<C>, id: nat, ids: seq<nat>, k: nat)
    requires Intact(a, id) && (forall m | 0 <= m < |ids| :: ids[m] in a[id].children) && Distinct(ids)
    requires k < |ids| && PrunedSoFar(a, b, id, ids[..k])
    ensures id < ids[k] < |b| && Intact(b, ids[k])
  {
    var t := ids[k];
    assert t in a[id].children;
    PrunedKeepsParents(a, b, id, ids[..k]);
    forall j: nat | j < |a| && Under(b, t, j)
      ensures Under(a, t, j) && Under(a, id, j) && b[j] == a[j] && j != id
    {
      UnderFrame(a, b, t, j);
      NotYetReached(a, b, id, ids, k, j);
      assert Under(a, id, t);
      UnderTransitive(a, id, t, j);
    }
    assert Rooted(b) && DeadListNothing(b);
    forall i: nat, c: nat | i < |b| && Under(b, t, i) && c in b[i].children
      ensures i < c < |b| && b[c].alive && b[c].parent == Some(i)
    {
      assert c in a[i].children;
      assert Under(b, t, c);
    }
    forall j: nat | j < |b| && Under(b, t, j) && j != t && b[j].alive ensures Listed(b, j) {
      assert Listed(a, j);
      assert Under(b, t, a[j].parent.value);
    }
  }

  /** Detaching the next child adds its subtree to what has been removed. */
  lemma DetachedOneMore<C>(a: Arena<C>, b: Arena<C>, c: Arena<C>, id: nat, ids: seq<nat>, k: nat)
    requires Intact(a, id) && k < |ids| && ids[k] in a[id].children
    requires PrunedSoFar(a, b, id, ids[..k]) && c == Prune(b, [ids[k]])
    ensures PrunedSoFar(a, c, id, ids[..k + 1]) && c[id] == b[id]
  {
    var t := ids[k];
    PrunedKeepsParents(a, b, id, ids[..k]);
    assert ids[..k + 1] == ids[..k] + [t];
    forall j: nat | j < |a|
      ensures UnderAny(b, [t], j) <==> Under(a, t, j)
      ensures UnderAny(a, ids[..k + 1], j) <==> UnderAny(a, ids[..k], j) || Under(a, t, j)
    {
      UnderFrame(a, b, t, j);
      UnderAnyOne(b, t, j);
      UnderAnySnoc(a, ids[..k], t, j);
    }
    UnderIsUpward(a, t, id);
  }

  lemma UnderAnyOne<C>(a: Arena<C>, t: nat, j: nat)
    ensures UnderAny(a, [t], j) <==> Under(a, t, j)
  {
    assert t in [t];
  }

  lemma UnderAnySnoc<C>(a: Arena<C>, tops: seq<nat>, t: nat, j: nat)
    ensures UnderAny(a, tops + [t], j) <==> UnderAny(a, tops, j) || Under(a, t, j)
  {
    assert forall o | o in tops :: o in tops + [t];
    assert t in tops + [t];
  }

  /** A live node strictly below `t` lies below one of its children. */
  lemma {:induction false} BelowAChild<C>(a: Arena<C>, t: nat, j: nat)
    requires Intact(a, t) && j < |a| && Under(a, t, j) && j != t && a[j].alive
    ensures UnderAny(a, a[t].children, j)
    decreases j
  {
    assert Listed(a, j);
    var p := a[j].parent.value;
    if p == t {
      assert Under(a, j, j);
    } else {
      BelowAChild(a, t, p);
      var o :| o in a[t].children && Under(a, o, p);
      assert Under(a, o, j);
    }
  }

  /** Once all children are detached and `id` is marked dead, its whole subtree is gone. */
  lemma AllBelowDetached<C>(a: Arena<C>, b: Arena<C>, id: nat)
    requires Intact(a, id) && PrunedSoFar(a, b, id, a[id].children) && b[id] == Killed(a[id])
    ensures b == Prune(a, [id])
  {
    forall j: nat | j < |a| ensures b[j] == Prune(a, [id])[j] {
      UnderAnyOne(a, id, j);
      if j != id {
        if UnderAny(a, a[id].children, j) {
          var o :| o in a[id].children && Under(a, o, j);
          assert Under(a, id, o);
          UnderTransitive(a, id, o, j);
        } else if Under(a, id, j) && a[j].alive {
          BelowAChild(a, id, j);
        }
      }
    }
  }
}
