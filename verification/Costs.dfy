/** What a run after edits does not do again. */
module Costs {
  import opened Spans
  import opened Arenas
  import opened Invariants
  import opened Edits
  import opened Engines
  import opened Executors
  import opened Freshness
  import opened Runs
  import opened Batches
  import opened Reference

  /** A merge gives no old node work that it did not have before. */
  lemma MergeMakesNoOldWork<C>(engine: Engine<C>, source: Text, a: Arena<C>, id: nat, j: nat)
    requires Shape(a) && id < |a| && Workable(a[id], engine.MaxRounds()) && j < |a|
    ensures var b := MergeNext(engine, source, a, id);
            j < |b| && (Workable(b[j], engine.MaxRounds()) ==> Workable(a[j], engine.MaxRounds()))
  {
    MergeEffect(a, id, NextVerdict(engine, source, a[id]));
    hide Merge;
  }

  lemma {:induction false} ReplayMakesNoOldWork<C>(engine: Engine<C>, source: Text, a: Arena<C>, rev: nat, log: seq<nat>, j: nat)
    requires Consistent(a, rev) && Legit(engine, source, a, log) && j < |a|
    ensures var b := Replay(engine, source, a, log);
            j < |b| && (Workable(b[j], engine.MaxRounds()) ==> Workable(a[j], engine.MaxRounds()))
  {
    if log != [] {
      var n := |log| - 1;
      ReplayMakesNoOldWork(engine, source, a, rev, log[..n], j);
      ReplayKeepsConsistent(engine, source, a, rev, log[..n]);
      hide MergeNext;
      MergeMakesNoOldWork(engine, source, Replay(engine, source, a, log[..n]), log[n], j);
    }
  }

  /** Every attempt is on a node that had work from the start, or that has been created since. */
  lemma {:induction false} AttemptsFindWork<C>(engine: Engine<C>, source: Text, a: Arena<C>, rev: nat, log: seq<nat>, k: nat)
    requires Consistent(a, rev) && Legit(engine, source, a, log) && k < |log|
    ensures log[k] >= |a| || Workable(a[log[k]], engine.MaxRounds())
  {
    hide Consistent, MergeNext, Workable;
    var n := |log| - 1;
    if k < n {
      AttemptsFindWork(engine, source, a, rev, log[..n], k);
    } else if log[n] < |a| {
      ReplayMakesNoOldWork(engine, source, a, rev, log[..n], log[n]);
    }
  }

  /** The same for a whole run. */
  lemma RunFindsWork<C(!new)>(
      engine: Engine<C>, source: Text, a: Arena<C>, rev: nat, exec: Executor<C>, token: Polls, k: nat)
    requires Contract(exec) && Consistent(a, rev) && k < |Run(engine, source, a, exec, token).log|
    ensures var id := Run(engine, source, a, exec, token).log[k].node;
            id >= |a| || Workable(a[id], engine.MaxRounds())
  {
    WholeRunTracks(engine, source, a, rev, exec, token);
    hide Consistent, RunFrom, Legit, Replay;
    AttemptsFindWork(engine, source, a, rev, NodesOf(Run(engine, source, a, exec, token).log), k);
  }

  /**
    * Only the edited chain is parsed again: in a run after an edit of a quiet tree, whoever executes
    * and cancels it, every attempt is on a live node that the edit touched or on a node that the run
    * itself has created.
    */
  lemma OnlyTouchedIsReparsed<C(!new)>(
      engine: Engine<C>, source: Text, a: Arena<C>, e: Edit, rev: nat, rev': nat, exec: Executor<C>, token: Polls, k: nat)
    requires Contract(exec) && Consistent(a, rev) && Quiet(a, engine.MaxRounds())
    ensures Restartable(a)
    ensures var log := Run(engine, source, EditAll(a, e, rev'), exec, token).log;
            k < |log| ==>
              var id := log[k].node;
              id >= |a| || (a[id].alive && e.Touches(a[id].span))
  {
    ConsistentIsRestartable(a, rev);
    EditKeepsConsistent(a, e, rev, rev');
    var b := EditAll(a, e, rev');
    hide Consistent, RunFrom;
    if k < |Run(engine, source, b, exec, token).log| {
      RunFindsWork(engine, source, b, rev', exec, token, k);
      var id := Run(engine, source, b, exec, token).log[k].node;
      if id < |a| {
        assert !Workable(a[id], engine.MaxRounds());
      }
    }
  }

  /**
    * Through any sequence of edits of a quiet tree: the run that follows attempts no node in the
    * subtree of a node that all of them have left alone.
    */
  lemma LeftAloneIsNotReparsed<C(!new)>(
      engine: Engine<C>, source: Text, trail: seq<Arena<C>>, edits: seq<Edit>, rev: nat, i: nat, j: nat,
      exec: Executor<C>, token: Polls, k: nat)
    requires LeavesAlone(trail, edits, rev, i) && Consistent(trail[0], rev) && Quiet(trail[0], engine.MaxRounds())
    requires i < |trail[0]| && trail[0][i].alive && j < |trail[0]| && trail[0][j].alive && Under(trail[0], i, j)
    requires Contract(exec)
    ensures var log := Run(engine, source, trail[|edits|], exec, token).log; k < |log| ==> log[k].node != j
  {
    hide Consistent, RunFrom;
    var b := trail[|edits|];
    SubtreeLeftAloneIsKept(trail, edits, rev, i, j, |edits|);
    assert !Workable(trail[0][j], engine.MaxRounds());
    if k < |Run(engine, source, b, exec, token).log| {
      RunFindsWork(engine, source, b, rev + |edits|, exec, token, k);
    }
  }
}
