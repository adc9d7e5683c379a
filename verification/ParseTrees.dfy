/** The parse tree as an object: the operations that update its nodes in place. */
module ParseTrees {
  import opened Spans
  import opened Arenas
  import opened Invariants
  import opened Edits
  import opened Detaching
  import opened Runs
  import opened Queries

  /** How a merge left its node, and for a rejected child the violation to report. */
  datatype Applied = Expanded | Done | Failed(violation: Option<Violation>)

  class ParseTree<C(==)> {
    var rev: nat
    var nodes: seq<Node<C>>
    const root: nat := 0

    ghost predicate Valid()
      reads this
    {
      Consistent(nodes, rev)
    }

    constructor (sourceRev: nat, rootSpan: Span, rootCtx: C)
      requires rootSpan.rev == sourceRev
      ensures Valid() && rev == sourceRev && nodes == [RootNode(rootSpan, rootCtx)]
    {
      rev := sourceRev;
      nodes := [RootNode(rootSpan, rootCtx)];
    }

    /** The deepest node containing `offset`, found by walking down first containing children. */
    method NodeAt(offset: nat) returns (found: Option<nat>)
      requires Valid()
      ensures found == if nodes[root].span.ContainsOffset(offset) then Some(Deepest(nodes, root, offset)) else None
    {
      var current := root;
      if !nodes[current].span.ContainsOffset(offset) {
        return None;
      }
      while true
        invariant current < |nodes|
        invariant Deepest(nodes, root, offset) == Deepest(nodes, current, offset)
        decreases |nodes| - current
      {
        ChildrenInRange(nodes, current);
        var children := nodes[current].children;
        var next := FirstHit(nodes, children, offset);
        if next == |children| {
          return Some(current);
        }
        assert children[next] in nodes[current].children;
        current := children[next];
      }
    }

    /** Moves every live span to its new place, and starts every touched node over. */
    method Edit(edit: Edit)
      requires Valid()
      modifies this
      ensures Valid() && rev == old(rev) + 1
      ensures Restartable(old(nodes)) && nodes == EditAll(old(nodes), edit, rev)
    {
      ConsistentIsRestartable(nodes, rev);
      ghost var edited := EditAll(nodes, edit, rev + 1);
      assert Consistent(edited, rev + 1) by {
        EditKeepsConsistent(nodes, edit, rev, rev + 1);
      }
      hide Consistent;
      rev := rev + 1;
      for i := 0 to |nodes|
        invariant rev == old(rev) + 1 && |nodes| == |old(nodes)|
        invariant forall j | 0 <= j < i :: nodes[j] == EditNode(old(nodes)[j], edit, rev)
        invariant forall j | i <= j < |nodes| :: nodes[j] == old(nodes)[j]
      {
        var node := nodes[i];
        if !node.alive {
          continue;
        }
        var touched := edit.Touches(node.span);
        node := node.(span := MapSpan(node.span, edit, rev));
        if touched {
          node := node.(status := Unparsed, depth := node.depth - node.attempts, attempts := 0);
        }
        nodes := nodes[i := node];
      }
      assert nodes == edited;
    }

    /** Kills `id` and everything below it, and nothing else. */
    method DetachRecursive(id: nat)
      requires 0 < id < |nodes| && Intact(nodes, id)
      modifies this`nodes
      ensures nodes == Prune(old(nodes), [id])
      decreases |nodes| - id
    {
      nodes := nodes[id := nodes[id].(alive := false)];
      var children := nodes[id].children;
      nodes := nodes[id := nodes[id].(children := [])];
      ghost var killed := nodes[id];
      assert PrunedSoFar(old(nodes), nodes, id, children[..0]);
      for k := 0 to |children|
        invariant PrunedSoFar(old(nodes), nodes, id, children[..k]) && nodes[id] == killed
      {
        ReadyToDetach(old(nodes), nodes, id, children, k);
        ghost var before := nodes;
        DetachRecursive(children[k]);
        DetachedOneMore(old(nodes), before, nodes, id, children, k);
      }
      assert children[..|children|] == children;
      AllBelowDetached(old(nodes), nodes, id);
    }

    /** Kills everything below `id`. */
    method DetachChildren(id: nat)
      requires Valid() && id < |nodes|
      modifies this`nodes
      ensures nodes == Prune(old(nodes), old(nodes)[id].children)[id := old(nodes)[id].(children := [])]
    {
      ShapeIsIntact(nodes, id);
      var children := nodes[id].children;
      nodes := nodes[id := nodes[id].(children := [])];
      ghost var bare := nodes[id];
      assert PrunedSoFar(old(nodes), nodes, id, children[..0]);
      for k := 0 to |children|
        invariant PrunedSoFar(old(nodes), nodes, id, children[..k]) && nodes[id] == bare
      {
        ReadyToDetach(old(nodes), nodes, id, children, k);
        ghost var before := nodes;
        DetachRecursive(children[k]);
        DetachedOneMore(old(nodes), before, nodes, id, children, k);
      }
      assert children[..|children|] == children;
      assert nodes == Prune(old(nodes), children)[id := bare];
    }

    method SetStatus(id: nat, status: Status)
      requires id < |nodes|
      modifies this`nodes
      ensures nodes == old(nodes)[id := old(nodes)[id].(status := status)]
    {
      nodes := nodes[id := nodes[id].(status := status)];
    }

    method MarkFailed(id: nat, round: nat)
      requires id < |nodes|
      modifies this`nodes
      ensures var n := old(nodes)[id];
              nodes == old(nodes)[id := n.(status := Arenas.Failed, depth := round + 1, attempts := n.attempts + 1)]
    {
      nodes := nodes[id := nodes[id].(status := Arenas.Failed, depth := round + 1, attempts := nodes[id].attempts + 1)];
    }

    /**
      * Matches the produced children against the old ones: each takes the first unclaimed live old
      * child with its span and context.
      */
    method ClaimOldChildren(olds: seq<nat>, kids: seq<Kid<C>>) returns (m: Matching)
      requires InRange(nodes, olds)
      ensures m == Match(nodes, olds, kids)
    {
      var reused: seq<Option<nat>> := seq(|kids|, _ => None);
      var orphans := olds;
      assert kids[..0] == [];
      for slot := 0 to |kids|
        invariant |reused| == |kids| && forall s | slot <= s < |kids| :: reused[s] == None
        invariant Match(nodes, olds, kids[..slot]) == Matching(reused[..slot], orphans)
      {
        assert kids[..slot + 1][..slot] == kids[..slot];
        var position := Position(nodes, orphans, kids[slot]);
        ghost var before := reused;
        if position < |orphans| {
          reused := reused[slot := Some(orphans[position])];
          orphans := Without(orphans, position);
        }
        assert reused[..slot + 1] == before[..slot] + [reused[slot]];
      }
      assert kids[..|kids|] == kids && reused[..|kids|] == reused;
      m := Matching(reused, orphans);
    }

    /** Kills the subtrees of some of the old children of `id`, whose child list has been taken. */
    method DetachOrphans(id: nat, orphans: seq<nat>, ghost before: Arena<C>)
      requires Intact(before, id) && Distinct(orphans)
      requires forall k | 0 <= k < |orphans| :: orphans[k] in before[id].children
      requires PrunedSoFar(before, nodes, id, [])
      modifies this`nodes
      ensures PrunedSoFar(before, nodes, id, orphans) && nodes[id] == old(nodes)[id]
    {
      assert orphans[..0] == [];
      for k := 0 to |orphans|
        invariant PrunedSoFar(before, nodes, id, orphans[..k]) && nodes[id] == old(nodes)[id]
      {
        ReadyToDetach(before, nodes, id, orphans, k);
        ghost var current := nodes;
        DetachRecursive(orphans[k]);
        DetachedOneMore(before, current, nodes, id, orphans, k);
      }
      assert orphans[..|orphans|] == orphans;
    }

    /** Lines up the ids of the produced children, appending a new node where none was reused. */
    method PlaceChildren(id: nat, kids: seq<Kid<C>>, reused: seq<Option<nat>>, nextDepth: nat) returns (childIds: seq<nat>)
      requires |reused| == |kids|
      modifies this`nodes
      ensures var p := Place(|old(nodes)|, id, kids, reused, nextDepth);
              childIds == p.ids && nodes == old(nodes) + p.added
    {
      childIds := [];
      assert kids[..0] == [] && reused[..0] == [];
      for slot := 0 to |kids|
        invariant var p := Place(|old(nodes)|, id, kids[..slot], reused[..slot], nextDepth);
                  childIds == p.ids && nodes == old(nodes) + p.added
      {
        assert kids[..slot + 1][..slot] == kids[..slot] && reused[..slot + 1][..slot] == reused[..slot];
        if reused[slot].Some? {
          childIds := childIds + [reused[slot].value];
          continue;
        }
        childIds := childIds + [|nodes|];
        nodes := nodes + [NewNode(id, kids[slot], nextDepth)];
      }
      assert kids[..|kids|] == kids && reused[..|kids|] == reused;
    }

    /** Re-expands `id`: reuse what matches, drop what does not, create the rest. */
    method ExpandNode(id: nat, kids: seq<Kid<C>>, round: nat)
      requires Shape(nodes) && id < |nodes| && nodes[id].alive && nodes[id].depth == round
      modifies this`nodes
      ensures InRange(old(nodes), old(nodes)[id].children)
      ensures nodes == Merge(old(nodes), id, Split(kids))
    {
      hide Shape, Intact, Match, Place, Claims, PrunedSoFar, Surgery, InRange, Distinct;
      ghost var a := nodes;
      ExpansionIsPrepared(a, id, kids);
      var olds := nodes[id].children;
      var m := ClaimOldChildren(olds, kids);
      nodes := nodes[id := nodes[id].(children := [])];
      DetachOrphans(id, m.orphans, a);
      ghost var pruned := nodes;
      var childIds := PlaceChildren(id, kids, m.reused, round + 1);
      nodes := nodes[id := nodes[id].(status := Status.Expanded, children := childIds)];
      ghost var g := Gained(a, id, Split(kids));
      PiecesAreSurgery(a, pruned, id, m.orphans, Judged(a[id], Split(kids), childIds), g.added);
    }

    /** The first child region the engine rejects, if any. */
    method FindViolation(id: nat, parent: Span, kids: seq<Kid<C>>, round: nat, shrink: bool) returns (violation: Option<Violation>)
      ensures violation == match FirstFault(parent, kids, shrink, 0)
                           case None => None
                           case Some(f) => Some(Violation(id, round, kids[f.0].0, f.1))
    {
      for slot := 0 to |kids|
        invariant forall j | 0 <= j < slot :: KidFault<C>(parent, kids[j].0, shrink).None?
      {
        var child := kids[slot].0;
        var kind := if child.rev != parent.rev then Some(WrongRevision)
                    else if !parent.Contains(child) then Some(OutsideParent)
                    else if shrink && child.Len() >= parent.Len() then Some(NotSmaller)
                    else None;
        if kind.Some? {
          return Some(Violation(id, round, child, kind.value));
        }
      }
      return None;
    }

    /** Judges what the pass of `round` made of `id`, and updates the node and its subtree accordingly. */
    method Apply(id: nat, outcome: Outcome<C>, round: nat, shrink: bool) returns (applied: Applied)
      requires Valid() && id < |nodes| && nodes[id].Ready() && nodes[id].depth == round
      modifies this`nodes
      ensures InRange(old(nodes), old(nodes)[id].children)
      ensures var v := Judge(old(nodes)[id].span, outcome, shrink);
              nodes == Merge(old(nodes), id, v) && applied == AppliedBy(id, round, outcome, v)
      ensures Valid()
    {
      hide Consistent, Shape, Merge, Prune, InRange;
      ghost var a, v := nodes, Judge(nodes[id].span, outcome, shrink);
      ApplyIsPrepared(a, rev, id, outcome, shrink);
      var parentSpan := nodes[id].span;
      match outcome {
        case Accept =>
          DetachChildren(id);
          SetStatus(id, Status.Done);
          SettledIsMerged(a, nodes, id, v);
          return Applied.Done;
        case Fail =>
          DetachChildren(id);
          MarkFailed(id, round);
          SettledIsMerged(a, nodes, id, v);
          return Applied.Failed(None);
        case Expand(kids) =>
          if kids == [] {
            DetachChildren(id);
            SetStatus(id, Status.Done);
            SettledIsMerged(a, nodes, id, v);
            return Applied.Done;
          }
          var violation := FindViolation(id, parentSpan, kids, round, shrink);
          if violation.Some? {
            DetachChildren(id);
            MarkFailed(id, round);
            SettledIsMerged(a, nodes, id, v);
            return Applied.Failed(violation);
          }
          ExpandNode(id, kids, round);
          return Applied.Expanded;
      }
    }
  }

  /** What `apply` reports for a verdict. */
  function AppliedBy<C>(id: nat, round: nat, outcome: Outcome<C>, v: Verdict<C>): Applied {
    match v
    case Accepted => Applied.Done
    case Split(_) => Applied.Expanded
    case Failing(GaveUp) => Applied.Failed(None)
    case Failing(Rejected(slot, kind)) =>
      if outcome.Expand? && slot < |outcome.kids| then Applied.Failed(Some(Violation(id, round, outcome.kids[slot].0, kind)))
      else Applied.Failed(None)
  }

  /**
    * What `apply` decides, for every outcome: accepting, or producing nothing, is done; giving up is a
    * failure without violation; producing children expands the node exactly when all of them are
    * admissible, and is otherwise a failure that names the first fault.  Failing costs one round.
    */
  lemma ApplyDecides<C>(a: Arena<C>, id: nat, outcome: Outcome<C>, round: nat, shrink: bool)
    requires Shape(a) && id < |a| && a[id].alive && a[id].depth == round
    ensures InRange(a, a[id].children)
    ensures var n, v := a[id], Judge(a[id].span, outcome, shrink);
            var m, applied := Merge(a, id, v)[id], AppliedBy(id, round, outcome, v);
            && m.span == n.span && m.ctx == n.ctx && m.parent == n.parent && m.alive
            && (outcome.Accept? || (outcome.Expand? && outcome.kids == []) ==>
                  m.status == Status.Done && m.depth == n.depth && m.attempts == n.attempts && applied == Applied.Done)
            && (outcome.Fail? || (outcome.Expand? && !AllAdmissible(n.span, outcome.kids, shrink)) ==>
                  m.status == Status.Failed && m.depth == round + 1 && m.attempts == n.attempts + 1 && applied.Failed?)
            && (outcome.Fail? ==> applied.violation == None)
            && (outcome.Expand? && !AllAdmissible(n.span, outcome.kids, shrink) ==>
                  applied.violation.Some? && NamesFirstFault(applied.violation.value, id, round, n.span, outcome.kids, shrink))
            && (outcome.Expand? && outcome.kids != [] && AllAdmissible(n.span, outcome.kids, shrink) ==>
                  m.status == Status.Expanded && m.depth == n.depth && m.attempts == n.attempts && applied == Applied.Expanded)
  {
    MergeEffect(a, id, Judge(a[id].span, outcome, shrink));
    hide Merge, Shape;
    if outcome.Expand? && outcome.kids != [] {
      var fault := FirstFault(a[id].span, outcome.kids, shrink, 0);
      assert fault.None? <==> AllAdmissible(a[id].span, outcome.kids, shrink);
    }
  }

  /** Detaching all children and labelling the node is the merge of a verdict without children. */
  lemma SettledIsMerged<C>(a: Arena<C>, b: Arena<C>, id: nat, v: Verdict<C>)
    requires id < |a| && InRange(a, a[id].children) && !v.Split?
    requires b == Prune(a, a[id].children)[id := a[id].(children := [])][id := Judged(a[id], v, [])]
    ensures b == Merge(a, id, v)
  {
  }

  lemma ApplyIsPrepared<C>(a: Arena<C>, rev: nat, id: nat, outcome: Outcome<C>, shrink: bool)
    requires Consistent(a, rev) && id < |a| && a[id].Ready()
    ensures Shape(a) && InRange(a, a[id].children)
    ensures Consistent(Merge(a, id, Judge(a[id].span, outcome, shrink)), rev)
  {
    ChildrenInRange(a, id);
    JudgeIsLegal(a[id].span, outcome, shrink);
    MergeKeepsConsistent(a, id, Judge(a[id].span, outcome, shrink), shrink, rev);
  }

  /** What re-expanding `id` starts from: a sound matching, and nothing pruned yet. */
  lemma ExpansionIsPrepared<C>(a: Arena<C>, id: nat, kids: seq<Kid<C>>)
    requires Shape(a) && id < |a| && a[id].alive
    ensures InRange(a, a[id].children) && Intact(a, id)
    ensures PrunedSoFar(a, a[id := a[id].(children := [])], id, [])
    ensures var orphans := Match(a, a[id].children, kids).orphans;
            Distinct(orphans) && forall k | 0 <= k < |orphans| :: orphans[k] in a[id].children
  {
    ChildrenInRange(a, id);
    ShapeIsIntact(a, id);
    MatchClaims(a, a[id].children, kids);
  }

  /** Pruning the orphans, appending the new nodes and replacing the node is one surgery. */
  lemma PiecesAreSurgery<C>(a: Arena<C>, pruned: Arena<C>, id: nat, orphans: seq<nat>, node: Node<C>, added: seq<Node<C>>)
    requires id < |a| && PrunedSoFar(a, pruned, id, orphans)
    ensures (pruned + added)[id := node] == Surgery(a, id, orphans, node, added)
  {
    hide UnderAny;
    var b, c := (pruned + added)[id := node], Surgery(a, id, orphans, node, added);
    forall j | 0 <= j < |b| ensures b[j] == c[j] {
    }
  }
}
