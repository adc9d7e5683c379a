/** A long-lived document's tree: it absorbs edits and is driven by engines. */
module Sessions {
  import opened Spans
  import opened Arenas
  import opened Invariants
  import opened Edits
  import opened Engines
  import opened Executors
  import opened Runs
  import opened ParseTrees
  import opened Queries
  import opened Driver

  class Session<C(==, !new)> {
    const tree: ParseTree<C>

    ghost predicate Valid()
      reads this, tree
    {
      tree.Valid()
    }

    constructor (sourceRev: nat, rootSpan: Span, rootCtx: C)
      requires rootSpan.rev == sourceRev
      ensures Valid() && fresh(tree)
      ensures tree.rev == sourceRev && tree.nodes == [RootNode(rootSpan, rootCtx)]
    {
      tree := new ParseTree(sourceRev, rootSpan, rootCtx);
    }

    /** Takes the tree along to the text after an edit. */
    method Edit(edit: Edit)
      requires Valid()
      modifies tree
      ensures Valid() && tree.rev == old(tree.rev) + 1
      ensures Restartable(old(tree.nodes)) && tree.nodes == EditAll(old(tree.nodes), edit, tree.rev)
    {
      tree.Edit(edit);
    }

    /** One run of any engine; `source` must be the text that the tree's spans index. */
    method Run(engine: Engine<C>, source: Text, exec: Executor<C>, token: Polls) returns (report: Report)
      requires Valid() && Contract(exec)
      modifies tree`nodes
      ensures Valid()
      ensures var p := Runs.Run(engine, source, old(tree.nodes), exec, token);
              tree.nodes == p.arena && report == p.report
    {
      report := RunEngine(engine, source, tree, exec, token);
    }
  }
}
