/** Read-only questions about a tree. */
module Queries {
  import opened Spans
  import opened Arenas
  import opened Invariants
  import opened Detaching
  import opened Runs

  function RootNode<C>(span: Span, ctx: C): Node<C> {
    Node(span, ctx, Unparsed, 0, None, [], 0, true)
  }

  // ----- the node at an offset -----

  /** The first listed node whose span contains `offset`, or the list's length. */
  function FirstHit<C>(a: Arena<C>, ids: seq<nat>, offset: nat): (k: nat)
    requires InRange(a, ids)
    ensures k <= |ids|
    ensures k < |ids| ==> a[ids[k]].span.ContainsOffset(offset)
    ensures forall j | 0 <= j < k :: !a[ids[j]].span.ContainsOffset(offset)
  {
    if ids == [] || a[ids[0]].span.ContainsOffset(offset) then 0 else 1 + FirstHit(a, ids[1..], offset)
  }

  /** Where walking down from `i` through first containing children ends. */
  ghost function Deepest<C>(a: Arena<C>, i: nat, offset: nat): nat
    requires Shape(a) && i < |a|
    decreases |a| - i
  {
    ChildrenInRange(a, i);
    var k := FirstHit(a, a[i].children, offset);
    if k == |a[i].children| then i
    else
      assert a[i].children[k] in a[i].children;
      Deepest(a, a[i].children[k], offset)
  }

  /** The walk ends in a live node below `i` that contains the offset and has no child containing it. */
  lemma {:induction false} DeepestContains<C>(a: Arena<C>, i: nat, offset: nat)
    requires Shape(a) && i < |a| && a[i].alive && a[i].span.ContainsOffset(offset)
    ensures var d := Deepest(a, i, offset);
            && d < |a| && a[d].alive && Under(a, i, d) && a[d].span.ContainsOffset(offset)
            && forall c | c in a[d].children :: c < |a| && !a[c].span.ContainsOffset(offset)
    decreases |a| - i
  {
    ChildrenInRange(a, i);
    var k := FirstHit(a, a[i].children, offset);
    if k == |a[i].children| {
      forall c | c in a[i].children ensures c < |a| && !a[c].span.ContainsOffset(offset) {
        var j :| 0 <= j < |a[i].children| && a[i].children[j] == c;
      }
    } else {
      var c := a[i].children[k];
      assert c in a[i].children;
      DeepestContains(a, c, offset);
      assert Under(a, i, c);
      UnderTransitive(a, i, c, Deepest(a, i, offset));
    }
  }

  /** No two children of one node share a byte. */
  ghost predicate SiblingsDisjoint<C>(a: Arena<C>) {
    forall p: nat, c: nat, d: nat {:trigger c in a[p].children, d in a[p].children} ::
      p < |a| && c < |a| && d < |a| && c in a[p].children && d in a[p].children && c != d ==> !a[c].span.Overlaps(a[d].span)
  }

  /** Where siblings are disjoint, every live node containing the offset lies on the way to the deepest one. */
  lemma {:induction false} DeepestIsUnique<C>(a: Arena<C>, rev: nat, i: nat, j: nat, offset: nat)
    requires Consistent(a, rev) && SiblingsDisjoint(a)
    requires i < |a| && a[i].alive && j < |a| && a[j].alive && Under(a, i, j) && a[j].span.ContainsOffset(offset)
    ensures Under(a, j, Deepest(a, i, offset))
    decreases |a| - i
  {
    ContainedUpward(a, rev, i, j, offset);
    if j == i {
      DeepestContains(a, i, offset);
    } else {
      ShapeIsIntact(a, i);
      BelowAChild(a, i, j);
      var c :| c in a[i].children && Under(a, c, j);
      ContainedUpward(a, rev, c, j, offset);
      OnlyHit(a, i, c, offset);
      DeepestIsUnique(a, rev, c, j, offset);
    }
  }

  /** The only child that contains the offset is where the walk goes. */
  lemma OnlyHit<C>(a: Arena<C>, i: nat, c: nat, offset: nat)
    requires Shape(a) && SiblingsDisjoint(a) && i < |a| && c in a[i].children && c < |a|
    requires a[c].span.ContainsOffset(offset)
    ensures Deepest(a, i, offset) == Deepest(a, c, offset)
  {
    ChildrenInRange(a, i);
    var k := FirstHit(a, a[i].children, offset);
    var m :| 0 <= m < |a[i].children| && a[i].children[m] == c;
    assert k <= m;
    var d := a[i].children[k];
    assert d in a[i].children;
    if d != c {
      assert a[c].span.Overlaps(a[d].span);
    }
  }

  lemma {:induction false} ContainedUpward<C>(a: Arena<C>, rev: nat, i: nat, j: nat, offset: nat)
    requires Consistent(a, rev) && i < |a| && j < |a| && a[j].alive && Under(a, i, j) && a[j].span.ContainsOffset(offset)
    ensures a[i].alive && a[i].span.ContainsOffset(offset)
    decreases j
  {
    if j != i {
      assert Listed(a, j);
      ContainedUpward(a, rev, i, a[j].parent.value, offset);
    }
  }

  // ----- settledness -----

  /** Neither the node nor anything below it has work left within `cap` rounds. */
  predicate IsSettled<C>(a: Arena<C>, i: nat, cap: nat)
    requires ChildrenPointBack(a) && i < |a|
    decreases |a| - i
  {
    !IsPending(a[i], cap) &&
    forall k | 0 <= k < |a[i].children| :: (assert a[i].children[k] in a[i].children; IsSettled(a, a[i].children[k], cap))
  }

  lemma {:induction false} SettledBelow<C>(a: Arena<C>, i: nat, j: nat, cap: nat)
    requires Shape(a) && i < |a| && j < |a| && a[j].alive && Under(a, i, j) && IsSettled(a, i, cap)
    ensures IsSettled(a, j, cap)
    decreases j
  {
    if j != i {
      assert Listed(a, j);
      var p := a[j].parent.value;
      SettledBelow(a, i, p, cap);
      var k :| 0 <= k < |a[p].children| && a[p].children[k] == j;
    }
  }

  lemma {:induction false} NothingPendingBelowIsSettled<C>(a: Arena<C>, i: nat, cap: nat)
    requires Shape(a) && i < |a|
    requires forall j: nat | j < |a| && Under(a, i, j) :: !IsPending(a[j], cap)
    ensures IsSettled(a, i, cap)
    decreases |a| - i
  {
    assert Under(a, i, i);
    forall k | 0 <= k < |a[i].children| ensures i < a[i].children[k] < |a| && IsSettled(a, a[i].children[k], cap) {
      var c := a[i].children[k];
      assert c in a[i].children;
      assert Under(a, i, c);
      forall j: nat | j < |a| && Under(a, c, j) ensures !IsPending(a[j], cap) {
        UnderTransitive(a, i, c, j);
      }
      NothingPendingBelowIsSettled(a, c, cap);
    }
  }

  /** A node is settled exactly when none of its live descendants, itself included, is pending. */
  lemma SettledMeansNothingPending<C>(a: Arena<C>, i: nat, cap: nat)
    requires Shape(a) && i < |a|
    ensures IsSettled(a, i, cap) <==> forall j: nat | j < |a| && Under(a, i, j) :: !IsPending(a[j], cap)
  {
    if IsSettled(a, i, cap) {
      forall j: nat | j < |a| && Under(a, i, j) ensures !IsPending(a[j], cap) {
        if a[j].alive {
          SettledBelow(a, i, j, cap);
        }
      }
    } else if forall j: nat | j < |a| && Under(a, i, j) :: !IsPending(a[j], cap) {
      NothingPendingBelowIsSettled(a, i, cap);
    }
  }

  /** The root is settled exactly when the pending list is empty. */
  lemma RootSettledMeansPendingEmpty<C>(a: Arena<C>, cap: nat)
    requires Shape(a)
    ensures IsSettled(a, 0, cap) <==> Pending(a, cap) == []
  {
    SettledMeansNothingPending(a, 0, cap);
    PendingMembers(a, cap, |a|);
    forall j: nat | j < |a| ensures Under(a, 0, j) {
      RootIsAboveAll(a, j);
    }
    if Pending(a, cap) != [] {
      assert Pending(a, cap)[0] in Pending(a, cap);
    } else {
      forall j: nat | j < |a| ensures !IsPending(a[j], cap) {
        assert j !in Pending(a, cap);
      }
    }
  }
}
