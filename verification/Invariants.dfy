/** What every merge and every edit keeps true of the arena. */
module Invariants {
  import opened Spans
  import opened Arenas

  // ----- the invariant -----

  /** The round whose pass first met the node. */
  function Home<C>(n: Node<C>): int {
    n.depth - n.attempts
  }

  /** Live spans carry the tree's revision and nest. */
  ghost predicate Nested<C>(a: Arena<C>, rev: nat) {
    && (forall i | 0 <= i < |a| && a[i].alive :: a[i].span.rev == rev)
    && (forall p: nat, c: nat {:trigger c in a[p].children} ::
          p < |a| && c < |a| && c in a[p].children ==> a[p].span.Contains(a[c].span))
  }

  /** Settled leaves have no children, expanded nodes have some. */
  ghost predicate Labelled<C>(a: Arena<C>) {
    forall i | 0 <= i < |a| && a[i].alive ::
      && (a[i].status == Done || a[i].status == Failed ==> a[i].children == [])
      && (a[i].status == Expanded ==> a[i].children != [])
  }

  /** Rounds only grow along the tree: a child's home is past its parent's current round. */
  ghost predicate Ordered<C>(a: Arena<C>)
    requires |a| > 0
  {
    && Home(a[0]) == 0
    && (forall i | 0 <= i < |a| && a[i].alive ::
          && Home(a[i]) >= 0
          && (a[i].status == Unparsed ==> a[i].attempts == 0)
          && (a[i].status == Failed ==> a[i].attempts > 0))
    && (forall p: nat, c: nat {:trigger c in a[p].children} ::
          p < |a| && c < |a| && c in a[p].children ==> Home(a[c]) > a[p].depth)
  }

  ghost predicate Consistent<C>(a: Arena<C>, rev: nat) {
    Shape(a) && Nested(a, rev) && Labelled(a) && Ordered(a)
  }

  // ----- which nodes an operation on node `id` removes -----

  /** The pieces of a merge fit together. */
  ghost predicate Operable<C>(a: Arena<C>, id: nat, dropped: seq<nat>, node: Node<C>, added: seq<Node<C>>) {
    && id < |a| && a[id].alive && node.alive && node.parent == a[id].parent
    && (forall c | c in dropped :: c in a[id].children)
    && (forall c | c in a[id].children :: c in dropped || c in node.children)
    && (forall c | c in node.children :: (c in a[id].children && c !in dropped) || |a| <= c < |a| + |added|)
    && (forall c | |a| <= c < |a| + |added| :: c in node.children)
    && (forall k | 0 <= k < |added| :: added[k].alive && added[k].parent == Some(id) && added[k].children == [])
    && Distinct(node.children)
  }

  lemma RemovedThroughParent<C>(a: Arena<C>, tops: seq<nat>, c: nat)
    requires Rooted(a) && 0 < c < |a|
    ensures UnderAny(a, tops, c) <==> c in tops || UnderAny(a, tops, a[c].parent.value)
  {
    if UnderAny(a, tops, c) {
      var o :| o in tops && Under(a, o, c);
      assert c == o || Under(a, o, a[c].parent.value);
    }
    if c in tops {
      assert Under(a, c, c);
    }
    if UnderAny(a, tops, a[c].parent.value) {
      var o :| o in tops && Under(a, o, a[c].parent.value);
      assert Under(a, o, c);
    }
  }

  /** Nothing at or before `id`, and no kept child of `id`, lies in a dropped subtree. */
  lemma IdSurvives<C>(a: Arena<C>, id: nat, dropped: seq<nat>)
    requires Shape(a) && id < |a| && forall c | c in dropped :: c in a[id].children
    ensures forall j: nat | j <= id :: !UnderAny(a, dropped, j)
    ensures forall c | c in a[id].children && c !in dropped :: !UnderAny(a, dropped, c)
  {
    forall j: nat | j <= id ensures !UnderAny(a, dropped, j) {
      forall o | o in dropped ensures !Under(a, o, j) {
        assert o in a[id].children;
        UnderIsUpward(a, o, j);
      }
    }
    forall c | c in a[id].children && c !in dropped ensures !UnderAny(a, dropped, c) {
      RemovedThroughParent(a, dropped, c);
    }
  }

  /** A surviving node's parent survives, and its listed children survive, except around `id`. */
  lemma SurvivorsStayLinked<C>(a: Arena<C>, id: nat, dropped: seq<nat>, c: nat)
    requires Shape(a) && id < |a| && (forall o | o in dropped :: o in a[id].children)
    requires 0 < c < |a| && a[c].alive
    ensures !UnderAny(a, dropped, c) ==> !UnderAny(a, dropped, a[c].parent.value)
    ensures !UnderAny(a, dropped, a[c].parent.value) && a[c].parent.value != id ==> !UnderAny(a, dropped, c)
  {
    RemovedThroughParent(a, dropped, c);
    if c in dropped {
      assert c in a[id].children;
    }
  }

  lemma SurgeryKeepsShape<C>(a: Arena<C>, id: nat, dropped: seq<nat>, node: Node<C>, added: seq<Node<C>>)
    requires Shape(a) && Operable(a, id, dropped, node, added)
    ensures Shape(Surgery(a, id, dropped, node, added))
  {
    var b := Surgery(a, id, dropped, node, added);
    IdSurvives(a, id, dropped);
    SurgerySoundLists(a, id, dropped, node, added);
    assert Rooted(b);
    forall c: nat | 0 < c < |b| && b[c].alive ensures Listed(b, c) {
      if c < |a| {
        assert Listed(a, c);
        if c != id {
          SurvivorsStayLinked(a, id, dropped, c);
          if a[c].parent.value == id && c in dropped {
            RemovedThroughParent(a, dropped, c);
          }
        }
      }
    }
  }

  /** A listed child of a surviving node other than `id` survives unchanged as its child. */
  lemma SurgeryKeepsLink<C>(a: Arena<C>, id: nat, dropped: seq<nat>, i: nat, c: nat)
    requires Shape(a) && id < |a| && (forall o | o in dropped :: o in a[id].children)
    requires i < |a| && i != id && c in a[i].children && !UnderAny(a, dropped, i)
    ensures i < c < |a| && a[c].alive && a[c].parent == Some(i) && !UnderAny(a, dropped, c)
  {
    SurvivorsStayLinked(a, id, dropped, c);
  }

  lemma SurgeryLinks<C>(a: Arena<C>, id: nat, dropped: seq<nat>, node: Node<C>, added: seq<Node<C>>, i: nat, c: nat)
    requires Shape(a) && Operable(a, id, dropped, node, added)
    requires var b := Surgery(a, id, dropped, node, added); i < |b| && c in b[i].children
    ensures var b := Surgery(a, id, dropped, node, added);
            i < c < |b| && b[c].alive && b[c].parent == Some(i)
  {
    IdSurvives(a, id, dropped);
    hide UnderAny, Surgery;
    if i == id {
      if c < |a| {
        assert c in a[id].children && c !in dropped;
      }
    } else {
      assert i < |a| && !UnderAny(a, dropped, i);
      SurgeryKeepsLink(a, id, dropped, i, c);
    }
  }

  lemma SurgerySoundLists<C>(a: Arena<C>, id: nat, dropped: seq<nat>, node: Node<C>, added: seq<Node<C>>)
    requires Shape(a) && Operable(a, id, dropped, node, added)
    ensures ListsAreSound(Surgery(a, id, dropped, node, added))
  {
    var b := Surgery(a, id, dropped, node, added);
    assert ChildrenPointBack(b) by {
      hide UnderAny, Surgery;
      forall i: nat, c: nat | i < |b| && c in b[i].children
        ensures i < c < |b| && b[c].alive && b[c].parent == Some(i)
      {
        SurgeryLinks(a, id, dropped, node, added, i, c);
      }
    }
    SurgeryKeepsLists(a, id, dropped, node, added);
  }

  lemma SurgeryKeepsLists<C>(a: Arena<C>, id: nat, dropped: seq<nat>, node: Node<C>, added: seq<Node<C>>)
    requires DeadListNothing(a) && NothingListedTwice(a) && Operable(a, id, dropped, node, added)
    ensures DeadListNothing(Surgery(a, id, dropped, node, added))
    ensures NothingListedTwice(Surgery(a, id, dropped, node, added))
  {
    var b := Surgery(a, id, dropped, node, added);
    hide Surgery, UnderAny;
    forall i: nat | i < |b| ensures Distinct(b[i].children) && (!b[i].alive ==> b[i].children == []) {
      SurgeryChildren(a, id, dropped, node, added, i);
    }
  }

  /** Where a node's child list comes from after the surgery. */
  lemma SurgeryChildren<C>(a: Arena<C>, id: nat, dropped: seq<nat>, node: Node<C>, added: seq<Node<C>>, i: nat)
    requires Operable(a, id, dropped, node, added) && i < |a| + |added|
    ensures var n := Surgery(a, id, dropped, node, added)[i];
            n.children == [] || (n.alive && i == id && n.children == node.children) ||
            (i < |a| && n.alive == a[i].alive && n.children == a[i].children)
  {
    hide UnderAny;
  }

  // ----- a merge is such an operation -----

  /** A verdict the engine can reach on a region: accepted splits are non-empty and faultless. */
  ghost predicate Legal<C>(span: Span, v: Verdict<C>, shrink: bool) {
    v.Split? ==>
      v.kids != [] && forall k | 0 <= k < |v.kids| :: KidFault<C>(span, v.kids[k].0, shrink).None?
  }

  lemma JudgeIsLegal<C>(span: Span, outcome: Outcome<C>, shrink: bool)
    ensures Legal(span, Judge(span, outcome, shrink), shrink)
  {
  }

  ghost predicate Mergeable<C>(a: Arena<C>, id: nat, v: Verdict<C>, shrink: bool) {
    Shape(a) && id < |a| && a[id].Ready() && Legal(a[id].span, v, shrink)
  }

  lemma ChildrenInRange<C>(a: Arena<C>, id: nat)
    requires ListsAreSound(a) && id < |a|
    ensures InRange(a, a[id].children)
    ensures forall k | 0 <= k < |a[id].children| :: a[a[id].children[k]].alive
  {
    forall k | 0 <= k < |a[id].children| ensures a[id].children[k] < |a| && a[a[id].children[k]].alive {
      assert a[id].children[k] in a[id].children;
    }
  }

  lemma MergeIsOperable<C>(a: Arena<C>, id: nat, v: Verdict<C>)
    requires Shape(a) && id < |a| && a[id].alive
    ensures InRange(a, a[id].children)
    ensures var g := Gained(a, id, v);
            Operable(a, id, Dropped(a, id, v), Judged(a[id], v, g.ids), g.added)
  {
    ChildrenInRange(a, id);
    if v.Split? {
      var m := Match(a, a[id].children, v.kids);
      MatchClaims(a, a[id].children, v.kids);
      PlaceIsPlaced(|a|, id, v.kids, m.reused, a[id].depth + 1);
      PlacedFits(a, id, v.kids, m, Gained(a, id, v));
    }
  }

  /** An unparsed child of `parent` for one of the produced regions. */
  ghost predicate IsNewKid<C>(n: Node<C>, parent: nat, kids: seq<Kid<C>>, depth: nat) {
    Key(n) in kids && n == NewNode(parent, Key(n), depth)
  }

  lemma PlacedFits<C>(a: Arena<C>, id: nat, kids: seq<Kid<C>>, m: Matching, g: Placing<C>)
    requires ChildrenPointBack(a) && id < |a|
    requires Claims(a, a[id].children, kids, m)
    requires Placed(|a|, id, kids, m.reused, a[id].depth + 1, g)
    ensures forall c | c in a[id].children :: c in m.orphans || c in g.ids
    ensures forall c | c in g.ids :: (c in a[id].children && c !in m.orphans) || |a| <= c < |a| + |g.added|
    ensures forall k | 0 <= k < |g.added| :: IsNewKid(g.added[k], id, kids, a[id].depth + 1)
    ensures Distinct(g.ids)
  {
    forall c | c in a[id].children && c !in m.orphans ensures c in g.ids {
      var s :| 0 <= s < |m.reused| && m.reused[s] == Some(c);
      assert g.ids[s] == c;
    }
    forall c | c in g.ids ensures (c in a[id].children && c !in m.orphans) || |a| <= c < |a| + |g.added| {
      var s :| 0 <= s < |kids| && g.ids[s] == c;
      PlacedSlot(a, id, kids, m, g, s);
    }
    forall k | 0 <= k < |g.added| ensures IsNewKid(g.added[k], id, kids, a[id].depth + 1) {
      assert |a| + k in g.ids;
      var s :| 0 <= s < |kids| && g.ids[s] == |a| + k;
      PlacedSlot(a, id, kids, m, g, s);
    }
    forall s, t | 0 <= s < t < |g.ids| ensures g.ids[s] != g.ids[t] {
      PlacedSlot(a, id, kids, m, g, s);
      PlacedSlot(a, id, kids, m, g, t);
    }
  }

  /** The child in slot `s` is a claimed old child or the new node of that slot. */
  lemma PlacedSlot<C>(a: Arena<C>, id: nat, kids: seq<Kid<C>>, m: Matching, g: Placing<C>, s: nat)
    requires ChildrenPointBack(a) && id < |a| && s < |kids|
    requires Claims(a, a[id].children, kids, m)
    requires Placed(|a|, id, kids, m.reused, a[id].depth + 1, g)
    ensures if m.reused[s].Some? then
              g.ids[s] == m.reused[s].value && g.ids[s] < |a| && g.ids[s] in a[id].children && g.ids[s] !in m.orphans
            else |a| <= g.ids[s] < |a| + |g.added| && g.added[g.ids[s] - |a|] == NewNode(id, kids[s], a[id].depth + 1)
  {
  }

  // ----- what a merge does, node by node -----

  /**
    * `b` is `a` after a merge on `id`.  Nothing outside the subtree of `id` changes: every other
    * live node either stays as it is, field by field, or lies below `id` and dies; the new nodes
    * are unparsed children of `id` that the verdict asked for.
    */
  ghost predicate Merged<C>(a: Arena<C>, b: Arena<C>, id: nat, v: Verdict<C>) {
    && id < |a| <= |b| && Shape(a) && Shape(b) && a[id].alive
    && b[id] == Judged(a[id], v, b[id].children)
    && (if v.Split? then |b[id].children| == |v.kids| else b[id].children == [])
    && (forall j | 0 <= j < |a| && j != id :: b[j] == a[j] || (b[j] == Killed(a[j]) && Under(a, id, j)))
    && (forall j | |a| <= j < |b| ::
          v.Split? && IsNewKid(b[j], id, v.kids, a[id].depth + 1))
  }

  lemma MergeEffect<C>(a: Arena<C>, id: nat, v: Verdict<C>)
    requires Shape(a) && id < |a| && a[id].alive
    ensures InRange(a, a[id].children)
    ensures Merged(a, Merge(a, id, v), id, v)
  {
    ChildrenInRange(a, id);
    MergeIsOperable(a, id, v);
    var g, dropped := Gained(a, id, v), Dropped(a, id, v);
    var b := Merge(a, id, v);
    SurgeryKeepsShape(a, id, dropped, Judged(a[id], v, g.ids), g.added);
    forall j | 0 <= j < |a| && j != id ensures b[j] == a[j] || (b[j] == Killed(a[j]) && Under(a, id, j)) {
      if UnderAny(a, dropped, j) {
        var o :| o in dropped && Under(a, o, j);
        assert o in a[id].children;
        assert Under(a, id, o);
        UnderTransitive(a, id, o, j);
      }
    }
    if v.Split? {
      var m := Match(a, a[id].children, v.kids);
      MatchClaims(a, a[id].children, v.kids);
      PlaceIsPlaced(|a|, id, v.kids, m.reused, a[id].depth + 1);
      PlacedFits(a, id, v.kids, m, g);
    }
  }

  /** An accepted split leaves `id` with the produced children, in the pass's order. */
  lemma MergeGivesTheKids<C>(a: Arena<C>, id: nat, v: Verdict<C>)
    requires Shape(a) && id < |a| && a[id].alive && v.Split?
    ensures InRange(a, a[id].children)
    ensures GivesTheKids(a, Merge(a, id, v), id, v.kids)
  {
    MergeEffect(a, id, v);
    var m := Match(a, a[id].children, v.kids);
    MatchClaims(a, a[id].children, v.kids);
    PlaceIsPlaced(|a|, id, v.kids, m.reused, a[id].depth + 1);
    PlacedKids(a, Merge(a, id, v), id, v, m, Gained(a, id, v));
  }

  /** Child `k` of `id` is an old child with the produced key, kept as it was, or a new node. */
  ghost predicate GivesTheKids<C>(a: Arena<C>, b: Arena<C>, id: nat, kids: seq<Kid<C>>)
    requires id < |a| <= |b|
  {
    && InRange(b, b[id].children)
    && Keys(b, b[id].children) == kids
    && (forall k | 0 <= k < |kids| ::
          var c := b[id].children[k];
          if c < |a| then c in a[id].children && b[c] == a[c] else b[c] == NewNode(id, kids[k], a[id].depth + 1))
  }

  lemma PlacedKids<C>(a: Arena<C>, b: Arena<C>, id: nat, v: Verdict<C>, m: Matching, g: Placing<C>)
    requires Merged(a, b, id, v) && v.Split?
    requires Claims(a, a[id].children, v.kids, m)
    requires Placed(|a|, id, v.kids, m.reused, a[id].depth + 1, g)
    requires b[id].children == g.ids && |b| == |a| + |g.added|
    requires forall j | |a| <= j < |b| :: b[j] == g.added[j - |a|]
    ensures GivesTheKids(a, b, id, v.kids)
  {
    forall k | 0 <= k < |v.kids|
      ensures var c := b[id].children[k];
              && c < |b| && Key(b[c]) == v.kids[k]
              && if c < |a| then c in a[id].children && b[c] == a[c] else b[c] == NewNode(id, v.kids[k], a[id].depth + 1)
    {
      var c := b[id].children[k];
      assert c in b[id].children;
      if m.reused[k].Some? {
        assert c in a[id].children;
      }
    }
  }

  /** A listed child of a merged arena is an old unchanged link, or a child of `id`. */
  lemma MergedChild<C>(a: Arena<C>, b: Arena<C>, id: nat, v: Verdict<C>, p: nat, c: nat)
    requires Merged(a, b, id, v) && p < |b| && c in b[p].children
    ensures p < |a| && a[p].alive && c < |b|
    ensures c < |a| ==> Listed(a, c) && a[c].alive && a[c].parent == Some(p) && (c != id ==> b[c] == a[c])
    ensures p != id ==> c < |a| && b[p] == a[p]
    ensures p == id ==> v.Split?
  {
    if p >= |a| {
      assert false;
    }
    if c < |a| {
      assert a[c].alive;
      assert Listed(a, c);
    }
  }

  lemma MergedStaysNested<C>(a: Arena<C>, b: Arena<C>, id: nat, v: Verdict<C>, shrink: bool, rev: nat)
    requires Merged(a, b, id, v) && Nested(a, rev) && Legal(a[id].span, v, shrink)
    ensures Nested(b, rev)
  {
    forall p: nat, c: nat | p < |b| && c < |b| && c in b[p].children ensures b[p].span.Contains(b[c].span) {
      MergedChild(a, b, id, v, p, c);
    }
  }

  lemma MergedStaysLabelled<C>(a: Arena<C>, b: Arena<C>, id: nat, v: Verdict<C>, shrink: bool)
    requires Merged(a, b, id, v) && Labelled(a) && Legal(a[id].span, v, shrink)
    ensures Labelled(b)
  {
    forall i | 0 <= i < |b| && b[i].alive
      ensures b[i].status == Done || b[i].status == Failed ==> b[i].children == []
      ensures b[i].status == Expanded ==> b[i].children != []
    {
      assert i < |a| && i != id ==> b[i] == a[i];
    }
  }

  lemma MergedStaysOrdered<C>(a: Arena<C>, b: Arena<C>, id: nat, v: Verdict<C>)
    requires Merged(a, b, id, v) && Ordered(a)
    ensures Ordered(b)
  {
    forall i | 0 <= i < |b| && b[i].alive
      ensures Home(b[i]) >= 0
      ensures b[i].status == Unparsed ==> b[i].attempts == 0
      ensures b[i].status == Failed ==> b[i].attempts > 0
    {
      assert i < |a| && i != id ==> b[i] == a[i];
    }
    forall p: nat, c: nat | p < |b| && c < |b| && c in b[p].children ensures Home(b[c]) > b[p].depth {
      MergedChild(a, b, id, v, p, c);
    }
  }

  lemma MergedStaysConsistent<C>(a: Arena<C>, b: Arena<C>, id: nat, v: Verdict<C>, shrink: bool, rev: nat)
    requires Consistent(a, rev) && Merged(a, b, id, v) && Legal(a[id].span, v, shrink)
    ensures Consistent(b, rev)
  {
    MergedStaysNested(a, b, id, v, shrink, rev);
    MergedStaysLabelled(a, b, id, v, shrink);
    MergedStaysOrdered(a, b, id, v);
  }

  /** A merge keeps the whole invariant. */
  lemma MergeKeepsConsistent<C>(a: Arena<C>, id: nat, v: Verdict<C>, shrink: bool, rev: nat)
    requires Consistent(a, rev) && Mergeable(a, id, v, shrink)
    ensures InRange(a, a[id].children)
    ensures Consistent(Merge(a, id, v), rev)
  {
    MergeEffect(a, id, v);
    MergedStaysConsistent(a, Merge(a, id, v), id, v, shrink, rev);
  }

  /** No merge ever moves a node's home round, dead or alive. */
  lemma MergeKeepsHomes<C>(a: Arena<C>, id: nat, v: Verdict<C>, j: nat)
    requires Shape(a) && id < |a| && a[id].alive && j < |a|
    ensures InRange(a, a[id].children)
    ensures Home(Merge(a, id, v)[j]) == Home(a[j])
    ensures Merge(a, id, v)[j].parent == a[j].parent
    ensures !a[j].alive ==> Merge(a, id, v)[j] == a[j]
  {
    MergeEffect(a, id, v);
  }
}
